/** The three single-word mutation rules of main.cpp (SINGLE_WORD_FUNCTORS): each
    maps a dictionary word and the producer's round to a candidate password and
    its digest. */
module Rules {
  import opened Case
  import opened Decimals
  import opened Digests

  /** ProducedHashPair: a candidate and its digest. */
  datatype ProducedHashPair = ProducedHashPair(candidate: string, hash: Hash)

  /** SingleWordFunctor: the word *it and the round to a product. The dictionary
      argument of the source's functors is never read, so it is not modelled. */
  type Functor = (string, nat) -> ProducedHashPair

  /** What a rule appends: nothing in round 0, std::to_string(round - 1) after. */
  function RoundSuffix(round: nat): (s: string)
    ensures round == 0 <==> s == []
    ensures round > 0 ==> IsCanonical(s) && DecimalValue(s) == round - 1
  {
    if round == 0 then [] else Decimal(round - 1)
  }

  /** candidate is a stem of stemLength characters followed by the round's suffix:
      nothing in round 0, the canonical decimal digits of round - 1 otherwise. */
  predicate HasRoundSuffix(candidate: string, stemLength: nat, round: nat) {
    && stemLength <= |candidate|
    && (round == 0 ==> |candidate| == stemLength)
    && (round > 0 ==> IsCanonical(candidate[stemLength..]) && DecimalValue(candidate[stemLength..]) == round - 1)
  }

  /** The first rule: the word unchanged, then the suffix. */
  function AsIsOrSuffix(word: string, round: nat, md5: Md5): (p: ProducedHashPair)
    ensures HasRoundSuffix(p.candidate, |word|, round)
    ensures p.candidate[..|word|] == word
    ensures p.hash == HashOf(md5, p.candidate)
  {
    if round == 0 then ProducedHashPair(word, HashOf(md5, word))
    else
      var str := word + Decimal(round - 1);
      assert str[|word|..] == Decimal(round - 1);
      ProducedHashPair(str, HashOf(md5, str))
  }

  /** str[0] = toupper(str[0]). On an empty std::string str[0] is the terminating
      null character, which toupper leaves as it is. */
  function Capitalized(word: string): (r: string)
    ensures |r| == |word|
    ensures |word| > 0 ==> r[0] == UpperChar(word[0])
    ensures forall i :: 1 <= i < |word| ==> r[i] == word[i]
  {
    if word == [] then [] else [UpperChar(word[0])] + word[1..]
  }

  /** The second rule: the first character upper-cased, the rest unchanged, then the suffix. */
  function CapitalizeOrSuffix(word: string, round: nat, md5: Md5): (p: ProducedHashPair)
    ensures HasRoundSuffix(p.candidate, |word|, round)
    ensures |word| > 0 ==> p.candidate[0] == UpperChar(word[0])
    ensures forall i :: 1 <= i < |word| ==> p.candidate[i] == word[i]
    ensures p.hash == HashOf(md5, p.candidate)
  {
    var c := Capitalized(word);
    var str := c + RoundSuffix(round);
    assert str[|word|..] == RoundSuffix(round);
    assert forall i :: 0 <= i < |word| ==> str[i] == c[i];
    ProducedHashPair(str, HashOf(md5, str))
  }

  /** The third rule: the whole word upper-cased (toUpper), then the suffix. */
  function UpperOrSuffix(word: string, round: nat, md5: Md5): (p: ProducedHashPair)
    ensures HasRoundSuffix(p.candidate, |word|, round)
    ensures forall i :: 0 <= i < |word| ==> p.candidate[i] == UpperChar(word[i])
    ensures p.hash == HashOf(md5, p.candidate)
  {
    var str := Upper(word) + RoundSuffix(round);
    assert str[|word|..] == RoundSuffix(round);
    ProducedHashPair(str, HashOf(md5, str))
  }

  /** SINGLE_WORD_FUNCTORS, in the order the producer tries them. */
  function SingleWordFunctors(md5: Md5): (fs: seq<Functor>)
    ensures |fs| == 3
    ensures forall k, word, round :: 0 <= k < 3 ==> HasRoundSuffix(fs[k](word, round).candidate, |word|, round)
    ensures forall k, word, round :: 0 <= k < 3 ==> fs[k](word, round).hash == HashOf(md5, fs[k](word, round).candidate)
  {
    [(word: string, round: nat) => AsIsOrSuffix(word, round, md5),
     (word: string, round: nat) => CapitalizeOrSuffix(word, round, md5),
     (word: string, round: nat) => UpperOrSuffix(word, round, md5)]
  }

  /** The suffix identifies the round: a rule never repeats a candidate of an
      earlier round of the same word. */
  lemma RoundSuffixDeterminesRound(candidate: string, stemLength: nat, r1: nat, r2: nat)
    requires HasRoundSuffix(candidate, stemLength, r1) && HasRoundSuffix(candidate, stemLength, r2)
    ensures r1 == r2
  {
  }

  lemma FunctorRoundsDiffer(md5: Md5, k: nat, word: string, r1: nat, r2: nat)
    requires k < 3 && r1 != r2
    ensures SingleWordFunctors(md5)[k](word, r1).candidate != SingleWordFunctors(md5)[k](word, r2).candidate
  {
    var c := SingleWordFunctors(md5)[k](word, r1).candidate;
    if c == SingleWordFunctors(md5)[k](word, r2).candidate {
      RoundSuffixDeterminesRound(c, |word|, r1, r2);
    }
  }
}
