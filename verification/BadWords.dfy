/**
Forbidden token sequences (vllm/vllm/logits_process.py, `NoBadWordsLogitsProcessor`).

The processor looks at one step: it sets to minus infinity the logits of tokens that would complete a bad word.
The theorem is about whole generations: the ones it lets through are exactly those in which no bad word is
completed. Logits are reals or minus infinity.
*/
module BadWords {
  import opened LogitValues

  datatype Bias = Unset | Set(values: seq<Logit>)

  datatype Outcome = Logits(values: seq<Logit>) | ValueError(invalid: seq<int>) | IndexError

  // ----- what a step should do -----

  /** `word` ends at position `end` of `s`. */
  predicate EndsAt(s: seq<int>, word: seq<int>, end: int) {
    |word| <= end <= |s| && s[end - |word|..end] == word
  }

  /** Some bad word ends at position `end` of `s`. */
  predicate BadEnd(words: seq<seq<int>>, s: seq<int>, end: int) {
    exists k {:trigger words[k]} | 0 <= k < |words| :: EndsAt(s, words[k], end)
  }

  /** Token `t` completes a bad word after `past`. */
  predicate Completes(words: seq<seq<int>>, past: seq<int>, t: int) {
    BadEnd(words, past + [t], |past| + 1)
  }

  /** The logits, with minus infinity for the tokens that complete a bad word. */
  function Masked(words: seq<seq<int>>, past: seq<int>, logits: seq<Logit>): (r: seq<Logit>)
    ensures |r| == |logits|
    ensures forall t | 0 <= t < |r| :: r[t] == if Completes(words, past, t) then NegInf else logits[t]
  {
    seq(|logits|, t requires 0 <= t < |logits| => if Completes(words, past, t) then NegInf else logits[t])
  }

  predicate InVocabulary(t: int, vocabSize: nat) {
    0 <= t < vocabSize
  }

  function InvalidIn(word: seq<int>, vocabSize: nat): seq<int> {
    if word == [] then []
    else if InVocabulary(word[|word| - 1], vocabSize) then InvalidIn(word[..|word| - 1], vocabSize)
    else InvalidIn(word[..|word| - 1], vocabSize) + [word[|word| - 1]]
  }

  /** The tokens outside the vocabulary, in order and with repetitions. */
  function Invalid(words: seq<seq<int>>, vocabSize: nat): seq<int> {
    if words == [] then []
    else Invalid(words[..|words| - 1], vocabSize) + InvalidIn(words[|words| - 1], vocabSize)
  }

  predicate AllInVocabulary(word: seq<int>, vocabSize: nat) {
    forall i | 0 <= i < |word| :: InVocabulary(word[i], vocabSize)
  }

  lemma {:induction false} InvalidInNone(word: seq<int>, vocabSize: nat)
    ensures InvalidIn(word, vocabSize) == [] <==> AllInVocabulary(word, vocabSize)
  {
    if word != [] {
      InvalidInNone(word[..|word| - 1], vocabSize);
    }
  }

  /** Nothing is reported exactly if every token of every word is in the vocabulary. */
  lemma {:induction false} InvalidNone(words: seq<seq<int>>, vocabSize: nat)
    ensures Invalid(words, vocabSize) == [] <==> forall k | 0 <= k < |words| :: AllInVocabulary(words[k], vocabSize)
  {
    if words != [] {
      InvalidNone(words[..|words| - 1], vocabSize);
      InvalidInNone(words[|words| - 1], vocabSize);
    }
  }

  lemma {:induction false} InvalidInAppend(u: seq<int>, v: seq<int>, vocabSize: nat)
    ensures InvalidIn(u + v, vocabSize) == InvalidIn(u, vocabSize) + InvalidIn(v, vocabSize)
  {
    if v == [] {
      assert u + v == u;
    } else {
      assert (u + v)[..|u + v| - 1] == u + v[..|v| - 1];
      InvalidInAppend(u, v[..|v| - 1], vocabSize);
    }
  }

  /** The report follows the words in order. */
  lemma {:induction false} InvalidFollowsWords(a: seq<seq<int>>, b: seq<seq<int>>, vocabSize: nat)
    ensures Invalid(a + b, vocabSize) == Invalid(a, vocabSize) + Invalid(b, vocabSize)
  {
    if b == [] {
      assert a + b == a;
    } else {
      var front, last := b[..|b| - 1], b[|b| - 1];
      assert (a + b)[..|a + b| - 1] == a + front && (a + b)[|a + b| - 1] == last;
      InvalidFollowsWords(a, front, vocabSize);
    }
  }

  /** It follows the tokens of a word in order, and each of them decides for itself whether it is in it. */
  lemma InvalidFollowsTokens(u: seq<int>, v: seq<int>, t: int, vocabSize: nat)
    ensures Invalid([u + v], vocabSize) == Invalid([u], vocabSize) + Invalid([v], vocabSize)
    ensures Invalid([[t]], vocabSize) == if 0 <= t < vocabSize then [] else [t]
  {
    OneWord(u, vocabSize);
    OneWord(v, vocabSize);
    OneWord(u + v, vocabSize);
    OneWord([t], vocabSize);
    InvalidInAppend(u, v, vocabSize);
    assert [t][..0] == [];
  }

  lemma OneWord(word: seq<int>, vocabSize: nat)
    ensures Invalid([word], vocabSize) == InvalidIn(word, vocabSize)
  {
    assert [word][..0] == [] && Invalid([], vocabSize) == [];
  }

  // ----- biases -----

  /** The bias for words of one token: independent of the past. */
  predicate SingleBias(words: seq<seq<int>>, bias: seq<Logit>) {
    forall t | 0 <= t < |bias| :: bias[t] == if [t] in words then NegInf else NEUTRAL
  }

  /** A word of more than one token is completed by `t`. */
  predicate LongEnd(word: seq<int>, past: seq<int>, t: int) {
    |word| > 1 && EndsAt(past + [t], word, |past| + 1)
  }

  predicate CompletesLong(words: seq<seq<int>>, past: seq<int>, t: int) {
    words != [] && (CompletesLong(words[..|words| - 1], past, t) || LongEnd(words[|words| - 1], past, t))
  }

  predicate LongBias(words: seq<seq<int>>, past: seq<int>, bias: seq<Logit>) {
    forall t | 0 <= t < |bias| :: bias[t] == if CompletesLong(words, past, t) then NegInf else NEUTRAL
  }

  lemma {:induction false} LongWitness(words: seq<seq<int>>, past: seq<int>, t: int)
    ensures CompletesLong(words, past, t) <==> exists k {:trigger words[k]} | 0 <= k < |words| :: LongEnd(words[k], past, t)
  {
    if words != [] {
      var front := words[..|words| - 1];
      LongWitness(front, past, t);
      if k :| 0 <= k < |words| && LongEnd(words[k], past, t) {
        assert k < |front| ==> front[k] == words[k];
      }
    }
  }

  /** What the source compares: the word's last token, and all tokens but the last. */
  lemma EndsAtByPrefix(past: seq<int>, word: seq<int>, t: int)
    requires word != []
    ensures var n := |word| - 1;
            EndsAt(past + [t], word, |past| + 1)
            <==> n <= |past| && past[|past| - n..] == word[..n] && word[n] == t
  {
    var n := |word| - 1;
    if n <= |past| {
      assert (past + [t])[|past| - n..|past| + 1] == past[|past| - n..] + [t];
      assert word == word[..n] + [word[n]];
    }
  }

  /** A bad word is a single token or a long word. */
  lemma CompletesSplit(words: seq<seq<int>>, past: seq<int>, t: int)
    requires [] !in words
    ensures Completes(words, past, t) <==> [t] in words || CompletesLong(words, past, t)
  {
    LongWitness(words, past, t);
    if k :| 0 <= k < |words| && EndsAt(past + [t], words[k], |past| + 1) {
      if |words[k]| == 1 {
        EndsAtByPrefix(past, words[k], t);
        assert words[k] == [t];
      } else {
        assert LongEnd(words[k], past, t);
      }
    }
    if [t] in words {
      EndsAtByPrefix(past, [t], t);
    }
  }

  lemma BiasesMask(words: seq<seq<int>>, past: seq<int>, logits: seq<Logit>, single: seq<Logit>, long: seq<Logit>)
    requires [] !in words
    requires |logits| == |single| == |long| && SingleBias(words, single) && LongBias(words, past, long)
    ensures Sum(Sum(logits, single), long) == Masked(words, past, logits)
  {
    forall t | 0 <= t < |logits|
      ensures Sum(Sum(logits, single), long)[t] == if Completes(words, past, t) then NegInf else logits[t]
    {
      CompletesSplit(words, past, t);
    }
  }

  function Sum(a: seq<Logit>, b: seq<Logit>): (r: seq<Logit>)
    requires |a| == |b|
    ensures |r| == |a| && forall t | 0 <= t < |r| :: r[t] == Plus(a[t], b[t])
  {
    seq(|a|, t requires 0 <= t < |a| => Plus(a[t], b[t]))
  }

  function Zeros(n: nat): (r: seq<Logit>)
    ensures |r| == n && forall t | 0 <= t < n :: r[t] == NEUTRAL
  {
    seq(n, _ => NEUTRAL)
  }

  // ----- whole generations -----

  /** No bad word ends behind position `from`. */
  predicate Clean(words: seq<seq<int>>, s: seq<int>, from: nat) {
    forall end | from < end <= |s| :: !BadEnd(words, s, end)
  }

  predicate Allowed(logits: seq<Logit>, t: int) {
    0 <= t < |logits| && logits[t] != NegInf
  }

  /** Token `i` has a logit other than minus infinity after processing. */
  predicate Chosen(words: seq<seq<int>>, past: seq<int>, tokens: seq<int>, steps: seq<seq<Logit>>, i: nat)
    requires i < |tokens| == |steps|
  {
    Allowed(Masked(words, past + tokens[..i], steps[i]), tokens[i])
  }

  /** A generation: every token is chosen among those the processed logits allow. */
  predicate Generated(words: seq<seq<int>>, past: seq<int>, tokens: seq<int>, steps: seq<seq<Logit>>)
    requires |tokens| == |steps|
  {
    forall i {:trigger Chosen(words, past, tokens, steps, i)} | 0 <= i < |tokens| ::
      Chosen(words, past, tokens, steps, i)
  }

  lemma EndsAtPrefix(s: seq<int>, n: nat, word: seq<int>, end: int)
    requires end <= n <= |s|
    ensures EndsAt(s[..n], word, end) <==> EndsAt(s, word, end)
  {
    if |word| <= end {
      assert s[..n][end - |word|..end] == s[end - |word|..end];
    }
  }

  lemma BadEndPrefix(words: seq<seq<int>>, s: seq<int>, n: nat, end: int)
    requires end <= n <= |s|
    ensures BadEnd(words, s[..n], end) <==> BadEnd(words, s, end)
  {
    forall k | 0 <= k < |words| ensures EndsAt(s[..n], words[k], end) <==> EndsAt(s, words[k], end) {
      EndsAtPrefix(s, n, words[k], end);
    }
  }

  /** What a step rejects is what ends in the whole text. */
  lemma StepIsEnd(words: seq<seq<int>>, past: seq<int>, tokens: seq<int>, i: nat)
    requires i < |tokens|
    ensures Completes(words, past + tokens[..i], tokens[i]) <==> BadEnd(words, past + tokens, |past| + i + 1)
  {
    var s, n := past + tokens, |past| + i + 1;
    assert s[..n] == past + tokens[..i] + [tokens[i]];
    BadEndPrefix(words, s, n, n);
  }

  /**
  The processor's guarantee, for whole generations and in both directions: tokens can be generated exactly if the
  model's own logits allow each of them and no bad word ends among them. Bad words that begin in the past count too.
  */
  lemma GeneratedIsClean(words: seq<seq<int>>, past: seq<int>, tokens: seq<int>, steps: seq<seq<Logit>>)
    requires |tokens| == |steps|
    ensures Generated(words, past, tokens, steps)
            <==> Clean(words, past + tokens, |past|) && forall i | 0 <= i < |tokens| :: Allowed(steps[i], tokens[i])
  {
    var s := past + tokens;
    forall i | 0 <= i < |tokens|
      ensures Chosen(words, past, tokens, steps, i)
              <==> Allowed(steps[i], tokens[i]) && !BadEnd(words, s, |past| + i + 1)
    {
      StepIsEnd(words, past, tokens, i);
    }
    if Generated(words, past, tokens, steps) {
      forall end | |past| < end <= |s| ensures !BadEnd(words, s, end) {
        assert Chosen(words, past, tokens, steps, end - |past| - 1);
      }
    }
  }

  /** No bad word is a contiguous part of what is generated. */
  lemma NoBadWordOccurs(words: seq<seq<int>>, past: seq<int>, tokens: seq<int>, steps: seq<seq<Logit>>, word: seq<int>, from: nat)
    requires |tokens| == |steps| && Generated(words, past, tokens, steps)
    requires word in words && word != [] && from + |word| <= |tokens|
    ensures tokens[from..from + |word|] != word
  {
    GeneratedIsClean(words, past, tokens, steps);
    var s, end := past + tokens, |past| + from + |word|;
    assert s[end - |word|..end] == tokens[from..from + |word|];
    var k :| 0 <= k < |words| && words[k] == word;
    assert !BadEnd(words, s, end) ==> !EndsAt(s, words[k], end);
  }

  // ----- the code -----

  class NoBadWordsLogitsProcessor {
    const badWords: seq<seq<int>>
    var wordBias: Bias

    ghost predicate Valid()
      reads this
    {
      wordBias.Set? ==> SingleBias(badWords, wordBias.values) && Invalid(badWords, |wordBias.values|) == []
    }

    /** The vocabulary is the one of earlier calls. */
    predicate Fits(logits: seq<Logit>)
      reads this
    {
      wordBias.Set? ==> |wordBias.values| == |logits|
    }

    constructor (words: seq<seq<int>>)
      ensures Valid() && badWords == words && wordBias == Unset
    {
      badWords, wordBias := words, Unset;
    }

    method CheckTokenIdsBounds(vocabSize: nat) returns (invalid: seq<int>)
      ensures invalid == Invalid(badWords, vocabSize)
    {
      invalid := [];
      for k := 0 to |badWords|
        invariant invalid == Invalid(badWords[..k], vocabSize)
      {
        var word := badWords[k];
        ghost var before := invalid;
        for i := 0 to |word|
          invariant invalid == before + InvalidIn(word[..i], vocabSize)
        {
          assert word[..i + 1][..i] == word[..i];
          if word[i] < 0 || word[i] >= vocabSize {
            invalid := invalid + [word[i]];
          }
        }
        assert word[..|word|] == word && badWords[..k + 1][..k] == badWords[..k];
      }
      assert badWords[..|badWords|] == badWords;
    }

    /** Sets the bias of the single-token words, unless some token is out of bounds: those are returned. */
    method InitWordBias(logits: seq<Logit>) returns (invalid: seq<int>)
      requires wordBias.Unset?
      modifies this`wordBias
      ensures invalid == Invalid(badWords, |logits|)
      ensures Valid() && Fits(logits) && (wordBias.Set? <==> invalid == [])
    {
      invalid := CheckTokenIdsBounds(|logits|);
      if invalid != [] {
        return;
      }
      InvalidNone(badWords, |logits|);
      var bias := Zeros(|logits|);
      for k := 0 to |badWords|
        invariant |bias| == |logits| && SingleBias(badWords[..k], bias)
      {
        assert badWords[..k + 1] == badWords[..k] + [badWords[k]];
        if |badWords[k]| == 1 {
          assert AllInVocabulary(badWords[k], |logits|);
          var id := badWords[k][0];
          assert badWords[k] == [id];
          bias := bias[id := NegInf];
        }
      }
      assert badWords[..|badWords|] == badWords;
      wordBias := Set(bias);
    }

    /** The bias of the longer words; fails on an empty word, which has no last token. */
    method LastTokenBias(past: seq<int>, vocabSize: nat) returns (ok: bool, bias: seq<Logit>)
      requires Invalid(badWords, vocabSize) == []
      ensures ok <==> [] !in badWords
      ensures ok ==> |bias| == vocabSize && LongBias(badWords, past, bias)
    {
      InvalidNone(badWords, vocabSize);
      bias := Zeros(vocabSize);
      for k := 0 to |badWords|
        invariant |bias| == vocabSize && LongBias(badWords[..k], past, bias)
        invariant [] !in badWords[..k]
      {
        var word := badWords[k];
        assert badWords[..k + 1][..k] == badWords[..k];
        if |word| == 1 || |word| > |past| + 1 {
          continue;
        }
        if |word| == 0 {
          return false, bias;
        }
        assert AllInVocabulary(word, vocabSize);
        var n := |word| - 1;
        forall t ensures LongEnd(word, past, t) <==> past[|past| - n..] == word[..n] && word[n] == t {
          EndsAtByPrefix(past, word, t);
        }
        bias := bias[word[n] := Plus(bias[word[n]], if past[|past| - n..] == word[..n] then NegInf else NEUTRAL)];
      }
      assert badWords[..|badWords|] == badWords;
      ok := true;
    }

    /**
    One step. Tokens outside the vocabulary are reported, an empty bad word fails, and otherwise exactly the tokens
    that complete a bad word are masked. The bias is computed once, at the first call that gets that far.
    */
    method Call(past: seq<int>, logits: seq<Logit>) returns (r: Outcome)
      requires Valid() && Fits(logits)
      modifies this`wordBias
      ensures Valid() && Fits(logits)
      ensures wordBias == old(wordBias) || old(wordBias).Unset?
      ensures wordBias.Set? <==> Invalid(badWords, |logits|) == []
      ensures r == if Invalid(badWords, |logits|) != [] then ValueError(Invalid(badWords, |logits|))
                   else if [] in badWords then IndexError
                   else Logits(Masked(badWords, past, logits))
    {
      if wordBias.Unset? {
        var invalid := InitWordBias(logits);
        if invalid != [] {
          return ValueError(invalid);
        }
      }
      var ok, bias := LastTokenBias(past, |logits|);
      if !ok {
        return IndexError;
      }
      BiasesMask(badWords, past, logits, wordBias.values, bias);
      r := Logits(Sum(Sum(logits, wordBias.values), bias));
    }

    /**
    A whole generation on one processor, starting before or after its first call: it goes through exactly if
    the logits allow the tokens and no bad word ends among them.
    */
    method Generate(past: seq<int>, tokens: seq<int>, steps: seq<seq<Logit>>, vocabSize: nat) returns (ok: bool)
      requires Valid() && [] !in badWords && Invalid(badWords, vocabSize) == []
      requires |tokens| == |steps| && forall i | 0 <= i < |steps| :: |steps[i]| == vocabSize
      requires wordBias.Set? ==> |wordBias.values| == vocabSize
      modifies this`wordBias
      ensures Valid()
      ensures ok <==> Clean(badWords, past + tokens, |past|) && forall i | 0 <= i < |tokens| :: Allowed(steps[i], tokens[i])
    {
      GeneratedIsClean(badWords, past, tokens, steps);
      ok := true;
      for i := 0 to |tokens|
        invariant Valid() && (wordBias.Set? ==> |wordBias.values| == vocabSize)
        invariant forall j {:trigger Chosen(badWords, past, tokens, steps, j)} | 0 <= j < i ::
                    Chosen(badWords, past, tokens, steps, j)
      {
        var r := Call(past + tokens[..i], steps[i]);
        if !(0 <= tokens[i] < |r.values| && r.values[tokens[i]] != NegInf) {
          assert !Chosen(badWords, past, tokens, steps, i);
          return false;
        }
        assert Chosen(badWords, past, tokens, steps, i);
      }
    }
  }
}
