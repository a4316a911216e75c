/**
  The bad-words mask of vllm/logits_process.py.
 */
module BadWords {
  /** A float32 logit as far as the mask is concerned; finite values are reals. */
  datatype Logit = NegInf | Finite(value: real) | PosInf | NaN

  function Add(x: Logit, y: Logit): Logit {
    match (x, y)
    case (NaN, _) => NaN
    case (_, NaN) => NaN
    case (Finite(a), Finite(b)) => Finite(a + b)
    case (Finite(_), _) => y
    case (_, Finite(_)) => x
    case (NegInf, NegInf) => NegInf
    case (PosInf, PosInf) => PosInf
    case (_, _) => NaN
  }

  type Token = int

  /** ValueError: a bad token id outside the vocabulary. IndexError: an empty bad word. */
  datatype Result<T> = Ok(value: T) | ValueError(invalid: seq<Token>) | IndexError

  // ---------- the specification: a suffix test ----------

  ghost predicate IsSuffix(w: seq<Token>, s: seq<Token>) {
    |w| <= |s| && s[|s| - |w|..] == w
  }

  /** Emitting t would complete one of the words. */
  ghost predicate Completes(words: seq<seq<Token>>, past: seq<Token>, t: Token) {
    exists i :: 0 <= i < |words| && IsSuffix(words[i], past + [t])
  }

  function BlockedLogit(x: Logit): Logit { Add(x, NegInf) }

  ghost predicate NonEmptyWords(words: seq<seq<Token>>) {
    forall i :: 0 <= i < |words| ==> words[i] != []
  }

  predicate InVocabulary(words: seq<seq<Token>>, vocab: nat) {
    forall i, j :: 0 <= i < |words| && 0 <= j < |words[i]| ==> 0 <= words[i][j] < vocab
  }

  function InvalidIn(w: seq<Token>, vocab: nat): seq<Token> {
    if w == [] then []
    else InvalidIn(w[..|w| - 1], vocab) + if 0 <= w[|w| - 1] < vocab then [] else [w[|w| - 1]]
  }

  /** The ids outside the vocabulary, word by word. */
  function Invalid(words: seq<seq<Token>>, vocab: nat): seq<Token> {
    if words == [] then [] else Invalid(words[..|words| - 1], vocab) + InvalidIn(words[|words| - 1], vocab)
  }

  /** The ids that are reported: those outside the vocabulary, word by word, in order. */
  lemma {:induction false} InvalidInOrder(words: seq<seq<Token>>, more: seq<seq<Token>>, vocab: nat)
    ensures Invalid(words + more, vocab) == Invalid(words, vocab) + Invalid(more, vocab)
  {
    if more == [] {
      assert words + more == words;
    } else {
      var n := |more| - 1;
      assert (words + more)[..|words + more| - 1] == words + more[..n];
      InvalidInOrder(words, more[..n], vocab);
    }
  }

  lemma {:induction false} InvalidInWord(w: seq<Token>, v: seq<Token>, vocab: nat)
    ensures InvalidIn(w + v, vocab) == InvalidIn(w, vocab) + InvalidIn(v, vocab)
  {
    if v == [] {
      assert w + v == w;
    } else {
      var n := |v| - 1;
      assert (w + v)[..|w + v| - 1] == w + v[..n];
      InvalidInWord(w, v[..n], vocab);
    }
  }

  lemma InvalidOfWord(w: seq<Token>, v: seq<Token>, vocab: nat)
    ensures Invalid([w + v], vocab) == Invalid([w], vocab) + Invalid([v], vocab)
  {
    InvalidInWord(w, v, vocab);
    assert [w + v][..0] == [] && [w][..0] == [] && [v][..0] == [];
  }

  lemma InvalidOfToken(t: Token, vocab: nat)
    ensures Invalid([], vocab) == [] && Invalid([[]], vocab) == []
    ensures Invalid([[t]], vocab) == if 0 <= t < vocab then [] else [t]
  {
    assert [[t]][..0] == [] && [t][..0] == [];
  }

  lemma {:induction false} NoneInvalidIn(w: seq<Token>, vocab: nat)
    ensures InvalidIn(w, vocab) == [] <==> forall j :: 0 <= j < |w| ==> 0 <= w[j] < vocab
  {
    if w != [] {
      NoneInvalidIn(w[..|w| - 1], vocab);
      assert forall j :: 0 <= j < |w| - 1 ==> w[..|w| - 1][j] == w[j];
    }
  }

  lemma InVocabularyStep(words: seq<seq<Token>>, n: nat, vocab: nat)
    requires |words| == n + 1
    ensures InVocabulary(words, vocab)
       <==> InVocabulary(words[..n], vocab) && forall j :: 0 <= j < |words[n]| ==> 0 <= words[n][j] < vocab
  {
    assert forall i :: 0 <= i < n ==> words[..n][i] == words[i];
  }

  lemma {:induction false} NoneInvalid(words: seq<seq<Token>>, vocab: nat)
    ensures Invalid(words, vocab) == [] <==> InVocabulary(words, vocab)
  {
    if words != [] {
      var n := |words| - 1;
      NoneInvalid(words[..n], vocab);
      NoneInvalidIn(words[n], vocab);
      InVocabularyStep(words, n, vocab);
    }
  }

  /** What the processor makes of the logits: completing tokens get -inf added, the rest is kept. */
  ghost predicate IsMasked(words: seq<seq<Token>>, past: seq<Token>, logits: seq<Logit>, out: seq<Logit>) {
    && |out| == |logits|
    && forall t :: 0 <= t < |logits| ==>
         out[t] == if Completes(words, past, t) then BlockedLogit(logits[t]) else logits[t]
  }

  // ---------- the two biases ----------

  /** Some one-token word is t. */
  ghost predicate SingleBlocks(words: seq<seq<Token>>, n: nat, t: Token)
    requires n <= |words|
  {
    exists i :: 0 <= i < n && words[i] == [t]
  }

  /** The word is longer, ends in t, and its other tokens end the past. */
  ghost predicate WordBlocks(w: seq<Token>, past: seq<Token>, t: Token) {
    |w| >= 2 && w[|w| - 1] == t && IsSuffix(w[..|w| - 1], past)
  }

  /** Some longer word ends in t and its other tokens end the past. */
  ghost predicate PrefixBlocks(words: seq<seq<Token>>, n: nat, past: seq<Token>, t: Token)
    requires n <= |words|
  {
    exists i :: 0 <= i < n && WordBlocks(words[i], past, t)
  }

  lemma OneMoreSingle(words: seq<seq<Token>>, n: nat, t: Token)
    requires n < |words|
    ensures SingleBlocks(words, n + 1, t) <==> SingleBlocks(words, n, t) || words[n] == [t]
  {}

  /** -inf where blocked, 0 elsewhere. */
  ghost predicate IsBias(bias: seq<Logit>, blocked: iset<Token>) {
    forall t :: 0 <= t < |bias| ==> bias[t] == if t in blocked then NegInf else Finite(0.0)
  }

  lemma SuffixOfAppended(w: seq<Token>, past: seq<Token>, t: Token)
    requires w != []
    ensures IsSuffix(w, past + [t]) <==> w[|w| - 1] == t && IsSuffix(w[..|w| - 1], past)
  {
    var n := |w| - 1;
    assert w == w[..n] + [w[n]];
    if n <= |past| {
      var s := past + [t];
      assert s[|s| - |w|..] == past[|past| - n..] + [t];
      if IsSuffix(w, s) {
        assert w[..n] == s[|s| - |w|..][..n] == past[|past| - n..];
        assert w[n] == s[|s| - |w|..][n];
      }
    }
  }

  lemma BiasOfWord(w: seq<Token>, past: seq<Token>, t: Token)
    requires w != []
    ensures IsSuffix(w, past + [t])
       <==> w == [t] || WordBlocks(w, past, t)
  {
    SuffixOfAppended(w, past, t);
    if |w| == 1 { assert w == [w[0]]; }
  }

  /** The fast form agrees with the suffix test. */
  lemma BiasesAreTheSuffixTest(words: seq<seq<Token>>, past: seq<Token>, t: Token)
    requires NonEmptyWords(words)
    ensures Completes(words, past, t) <==> SingleBlocks(words, |words|, t) || PrefixBlocks(words, |words|, past, t)
  {
    if Completes(words, past, t) {
      var i :| 0 <= i < |words| && IsSuffix(words[i], past + [t]);
      BiasOfWord(words[i], past, t);
    } else {
      forall i | 0 <= i < |words|
        ensures words[i] != [t] && !WordBlocks(words[i], past, t)
      {
        BiasOfWord(words[i], past, t);
      }
    }
  }

  // ---------- the processor ----------

  lemma AddBiases(words: seq<seq<Token>>, past: seq<Token>, logits: seq<Logit>, single: seq<Logit>, last: seq<Logit>,
                  out: seq<Logit>)
    requires NonEmptyWords(words) && |single| == |last| == |out| == |logits|
    requires IsBias(single, iset t | SingleBlocks(words, |words|, t))
    requires IsBias(last, iset t | PrefixBlocks(words, |words|, past, t))
    requires forall t :: 0 <= t < |out| ==> out[t] == Add(Add(logits[t], single[t]), last[t])
    ensures IsMasked(words, past, logits, out)
  {
    forall t | 0 <= t < |logits|
      ensures out[t] == if Completes(words, past, t) then BlockedLogit(logits[t]) else logits[t]
    {
      BiasesAreTheSuffixTest(words, past, t);
    }
  }

  class NoBadWordsLogitsProcessor {
    const badWords: seq<seq<Token>>
    var wordBias: array?<Logit>

    /** Once filled, the cached bias blocks the one-token words for the size it was made for. */
    ghost predicate Valid()
      reads this, wordBias
    {
      wordBias != null ==>
        && InVocabulary(badWords, wordBias.Length)
        && IsBias(wordBias[..], iset t | SingleBlocks(badWords, |badWords|, t))
    }

    constructor (badWords: seq<seq<Token>>)
      ensures this.badWords == badWords && wordBias == null && Valid()
    {
      this.badWords := badWords;
      wordBias := null;
    }

    method CheckTokenIdsBounds(vocab: nat) returns (invalid: seq<Token>)
      ensures invalid == Invalid(badWords, vocab)
    {
      invalid := [];
      for i := 0 to |badWords|
        invariant invalid == Invalid(badWords[..i], vocab)
      {
        var word := badWords[i];
        for j := 0 to |word|
          invariant invalid == Invalid(badWords[..i], vocab) + InvalidIn(word[..j], vocab)
        {
          assert word[..j + 1][..j] == word[..j];
          if word[j] < 0 || word[j] >= vocab { invalid := invalid + [word[j]]; }
        }
        assert word[..|word|] == word && badWords[..i + 1][..i] == badWords[..i];
      }
      assert badWords[..|badWords|] == badWords;
    }

    method InitWordBias(vocab: nat) returns (invalid: seq<Token>)
      requires wordBias == null
      modifies this
      ensures invalid == Invalid(badWords, vocab)
      ensures invalid != [] ==> wordBias == null
      ensures invalid == [] ==> wordBias != null && fresh(wordBias) && wordBias.Length == vocab && Valid()
    {
      invalid := CheckTokenIdsBounds(vocab);
      NoneInvalid(badWords, vocab);
      if invalid != [] { return; }
      var bias := new Logit[vocab](_ => Finite(0.0));
      for i := 0 to |badWords|
        invariant IsBias(bias[..], iset t | SingleBlocks(badWords, i, t))
      {
        if |badWords[i]| == 1 {
          assert badWords[i] == [badWords[i][0]];
          bias[badWords[i][0]] := NegInf;
        }
        forall t ensures SingleBlocks(badWords, i + 1, t) <==> SingleBlocks(badWords, i, t) || badWords[i] == [t] {
          OneMoreSingle(badWords, i, t);
        }
      }
      wordBias := bias;
    }

    /** last_token_bias: the last token of every longer word whose other tokens end the past. */
    method LastTokenBias(past: seq<Token>, vocab: nat) returns (ok: bool, bias: array<Logit>)
      requires InVocabulary(badWords, vocab)
      ensures ok <==> NonEmptyWords(badWords)
      ensures ok ==> fresh(bias) && bias.Length == vocab
                     && IsBias(bias[..], iset t | PrefixBlocks(badWords, |badWords|, past, t))
    {
      bias := new Logit[vocab](_ => Finite(0.0));
      for i := 0 to |badWords|
        invariant forall j :: 0 <= j < i ==> badWords[j] != []
        invariant IsBias(bias[..], iset t | PrefixBlocks(badWords, i, past, t))
      {
        var word := badWords[i];
        if |word| == 1 { continue; }
        if |word| > |past| + 1 { continue; }
        if word == [] { return false, bias; }
        var prefixLength := |word| - 1;
        var lastTokenId := word[|word| - 1];
        var isMatch := past[|past| - prefixLength..] == word[..prefixLength];
        assert forall t :: WordBlocks(word, past, t) <==> isMatch && t == lastTokenId;
        bias[lastTokenId] := Add(bias[lastTokenId], if isMatch then NegInf else Finite(0.0));
      }
      ok := true;
    }

    /** logits + word_bias + last_token_bias; later calls must come with logits of the first size. */
    method Call(past: seq<Token>, logits: seq<Logit>) returns (r: Result<seq<Logit>>)
      requires Valid()
      requires wordBias != null ==> wordBias.Length == |logits|
      modifies this
      ensures Valid() && (r.ValueError? || (wordBias != null && wordBias.Length == |logits|))
      ensures r.ValueError? <==> old(wordBias) == null && !InVocabulary(badWords, |logits|)
      ensures r.ValueError? ==> r.invalid == Invalid(badWords, |logits|)
      ensures r.IndexError? <==> !r.ValueError? && !NonEmptyWords(badWords)
      ensures r.Ok? ==> IsMasked(badWords, past, logits, r.value)
    {
      if wordBias == null {
        var invalid := InitWordBias(|logits|);
        NoneInvalid(badWords, |logits|);
        if invalid != [] { return ValueError(invalid); }
      }
      var ok, lastTokenBias := LastTokenBias(past, |logits|);
      if !ok { return IndexError; }
      var single, last := wordBias[..], lastTokenBias[..];
      var out := seq(|logits|, t requires 0 <= t < |logits| && |single| == |last| == |logits|
                               => Add(Add(logits[t], single[t]), last[t]));
      AddBiases(badWords, past, logits, single, last, out);
      r := Ok(out);
    }
  }

  /** Below +inf, a masked logit is -inf iff it was before or its token would complete a bad word. */
  lemma MaskedIsNegInfIff(words: seq<seq<Token>>, past: seq<Token>, logits: seq<Logit>, out: seq<Logit>, t: nat)
    requires IsMasked(words, past, logits, out) && t < |logits| && (logits[t].Finite? || logits[t].NegInf?)
    ensures out[t] == NegInf <==> logits[t] == NegInf || Completes(words, past, t)
  {}

  /** The mask does what it is for exactly when the token is free, or its logit finite or -inf. */
  lemma MaskIsExactIff(words: seq<seq<Token>>, past: seq<Token>, logits: seq<Logit>, out: seq<Logit>, t: nat)
    requires IsMasked(words, past, logits, out) && t < |logits|
    ensures (out[t] == NegInf <==> logits[t] == NegInf || Completes(words, past, t))
       <==> !Completes(words, past, t) || logits[t].Finite? || logits[t].NegInf?
  {}

  /** A logit that is +inf escapes: the blocked token gets NaN, not -inf, and a free one stays +inf. */
  lemma PosInfEscapes(words: seq<seq<Token>>, past: seq<Token>, logits: seq<Logit>, out: seq<Logit>, t: nat)
    requires IsMasked(words, past, logits, out) && t < |logits| && logits[t] == PosInf
    ensures out[t] == if Completes(words, past, t) then NaN else PosInf
  {}

  /** NaN stays NaN; a logit that is finite or -inf is masked to -inf or kept. */
  lemma NaNStays(words: seq<seq<Token>>, past: seq<Token>, logits: seq<Logit>, out: seq<Logit>, t: nat)
    requires IsMasked(words, past, logits, out) && t < |logits|
    ensures logits[t] == NaN ==> out[t] == NaN
    ensures logits[t].Finite? || logits[t].NegInf? ==> out[t] == if Completes(words, past, t) then NegInf else logits[t]
  {}

  // ---------- whole generation runs ----------

  /** One step of a run: the model's logits, the masked logits, and the token that was picked. */
  datatype Step = Step(logits: seq<Logit>, out: seq<Logit>, token: nat)

  function Text(start: seq<Token>, steps: seq<Step>): seq<Token> {
    if steps == [] then start else Text(start, steps[..|steps| - 1]) + [steps[|steps| - 1].token]
  }

  /** Every step masks its logits against the text so far and picks a token of the vocabulary. */
  ghost predicate IsRun(words: seq<seq<Token>>, start: seq<Token>, steps: seq<Step>) {
    steps == [] ||
    (var n := |steps| - 1;
     && IsRun(words, start, steps[..n])
     && IsMasked(words, Text(start, steps[..n]), steps[n].logits, steps[n].out)
     && steps[n].token < |steps[n].logits|)
  }

  ghost predicate PicksAllowed(steps: seq<Step>) {
    forall i :: 0 <= i < |steps| ==> steps[i].token < |steps[i].out| && steps[i].out[steps[i].token] != NegInf
  }

  /** The picked logits are finite before the mask. */
  ghost predicate PicksFinite(steps: seq<Step>) {
    forall i :: 0 <= i < |steps| ==> steps[i].token < |steps[i].logits| && steps[i].logits[steps[i].token].Finite?
  }

  /** The picked logits are below +inf before the mask. */
  ghost predicate PicksBelowInf(steps: seq<Step>) {
    forall i :: 0 <= i < |steps| ==>
      && steps[i].token < |steps[i].logits|
      && (steps[i].logits[steps[i].token].Finite? || steps[i].logits[steps[i].token].NegInf?)
  }

  /** No word ends anywhere behind the first n tokens. */
  ghost predicate NoWordEndsAfter(words: seq<seq<Token>>, s: seq<Token>, n: nat) {
    forall i, e :: 0 <= i < |words| && n < e <= |s| ==> !IsSuffix(words[i], s[..e])
  }

  lemma OneMoreToken(words: seq<seq<Token>>, s: seq<Token>, t: Token, n: nat)
    requires n <= |s|
    ensures NoWordEndsAfter(words, s + [t], n) <==> NoWordEndsAfter(words, s, n) && !Completes(words, s, t)
  {
    var s' := s + [t];
    assert s'[..|s'|] == s';
    assert forall e :: 0 <= e <= |s| ==> s'[..e] == s[..e];
    if NoWordEndsAfter(words, s', n) {
      forall i, e | 0 <= i < |words| && n < e <= |s| ensures !IsSuffix(words[i], s[..e]) {
        assert !IsSuffix(words[i], s'[..e]);
      }
      forall i | 0 <= i < |words| ensures !IsSuffix(words[i], s') {
        assert !IsSuffix(words[i], s'[..|s'|]);
      }
    }
    if NoWordEndsAfter(words, s, n) && !Completes(words, s, t) {
      forall i, e | 0 <= i < |words| && n < e <= |s'| ensures !IsSuffix(words[i], s'[..e]) {
        if e <= |s| { assert !IsSuffix(words[i], s[..e]); } else { assert s'[..e] == s'; }
      }
    }
  }

  lemma {:induction false} TextGrows(start: seq<Token>, steps: seq<Step>)
    ensures |Text(start, steps)| == |start| + |steps| && Text(start, steps)[..|start|] == start
  {
    if steps != [] { TextGrows(start, steps[..|steps| - 1]); }
  }

  /** Safety over whole runs: picking only tokens that are not -inf never completes a bad word. */
  lemma {:induction false} RunsNeverCompleteABadWord(words: seq<seq<Token>>, start: seq<Token>, steps: seq<Step>)
    requires IsRun(words, start, steps) && PicksAllowed(steps) && PicksBelowInf(steps)
    ensures NoWordEndsAfter(words, Text(start, steps), |start|)
  {
    TextGrows(start, steps);
    if steps == [] {
    } else {
      var n := |steps| - 1;
      var before := Text(start, steps[..n]);
      RunsNeverCompleteABadWord(words, start, steps[..n]);
      TextGrows(start, steps[..n]);
      MaskedIsNegInfIff(words, before, steps[n].logits, steps[n].out, steps[n].token);
      OneMoreToken(words, before, steps[n].token, |start|);
    }
  }

  /** Nothing else is forbidden: with finite logits every text without a new bad word can be picked. */
  lemma {:induction false} EveryCleanTextCanBePicked(words: seq<seq<Token>>, start: seq<Token>, steps: seq<Step>)
    requires IsRun(words, start, steps) && PicksFinite(steps)
    requires NoWordEndsAfter(words, Text(start, steps), |start|)
    ensures PicksAllowed(steps)
  {
    if steps != [] {
      var n := |steps| - 1;
      var before := Text(start, steps[..n]);
      TextGrows(start, steps[..n]);
      OneMoreToken(words, before, steps[n].token, |start|);
      EveryCleanTextCanBePicked(words, start, steps[..n]);
      MaskedIsNegInfIff(words, before, steps[n].logits, steps[n].out, steps[n].token);
      forall i | 0 <= i < |steps|
        ensures steps[i].token < |steps[i].out| && steps[i].out[steps[i].token] != NegInf
      {
        if i < n { assert steps[..n][i] == steps[i]; }
      }
    }
  }

  /** From an empty start: no bad word is a contiguous run anywhere in the text. */
  lemma CleanRunContainsNoBadWord(words: seq<seq<Token>>, steps: seq<Step>, i: nat, p: nat)
    requires NonEmptyWords(words) && IsRun(words, [], steps) && PicksAllowed(steps) && PicksBelowInf(steps)
    requires i < |words| && p + |words[i]| <= |Text([], steps)|
    ensures Text([], steps)[p..p + |words[i]|] != words[i]
  {
    var s, e := Text([], steps), p + |words[i]|;
    RunsNeverCompleteABadWord(words, [], steps);
    assert !IsSuffix(words[i], s[..e]);
    assert s[..e][|s[..e]| - |words[i]|..] == s[p..e];
  }
}
