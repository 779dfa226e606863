/** The dictionary loadDictionary builds (main.cpp): every token lower-cased, and
    each lower-cased word kept once, where it first occurs. */
module Dictionary {
  import opened Case

  function LowerAll(tokens: seq<string>): (r: seq<string>)
    ensures |r| == |tokens|
    ensures forall i :: 0 <= i < |tokens| ==> r[i] == Lower(tokens[i])
  {
    seq(|tokens|, i requires 0 <= i < |tokens| => Lower(tokens[i]))
  }

  /** Keep each word the first time it is seen, appending in order: the vector
      that the std::set filter leaves behind. */
  function Dedup(s: seq<string>): seq<string> {
    if s == [] then []
    else
      var d := Dedup(s[..|s| - 1]);
      if s[|s| - 1] in d then d else d + [s[|s| - 1]]
  }

  predicate NoDuplicates(d: seq<string>) {
    forall i, j :: 0 <= i < j < |d| ==> d[i] != d[j]
  }

  /** Position of the first occurrence of w. */
  function FirstIndex(s: seq<string>, w: string): (k: nat)
    requires w in s
    ensures k < |s| && s[k] == w
    ensures forall j :: 0 <= j < k ==> s[j] != w
  {
    if s[0] == w then 0 else 1 + FirstIndex(s[1..], w)
  }

  lemma FirstIndexExtend(p: seq<string>, x: string, w: string)
    requires w in p + [x]
    ensures w in p ==> FirstIndex(p + [x], w) == FirstIndex(p, w)
    ensures w !in p ==> FirstIndex(p + [x], w) == |p|
  {
    var k := FirstIndex(p + [x], w);
    if w in p {
      var k' := FirstIndex(p, w);
      assert (p + [x])[k'] == w;
    }
  }

  /** The deduplicated list holds every distinct word exactly once, in the order
      of first occurrence. */
  lemma {:induction false} DedupProperties(s: seq<string>)
    ensures NoDuplicates(Dedup(s))
    ensures forall w :: w in Dedup(s) <==> w in s
    ensures forall i, j :: 0 <= i < j < |Dedup(s)| ==> FirstIndex(s, Dedup(s)[i]) < FirstIndex(s, Dedup(s)[j])
  {
    if s != [] {
      var p, x := s[..|s| - 1], s[|s| - 1];
      assert s == p + [x];
      DedupProperties(p);
      var d' := Dedup(p);
      var d := Dedup(s);
      forall w | w in p ensures FirstIndex(s, w) == FirstIndex(p, w) {
        FirstIndexExtend(p, x, w);
      }
      if x !in d' {
        assert d == d' + [x];
        FirstIndexExtend(p, x, x);
        forall i | 0 <= i < |d'| ensures FirstIndex(s, d[i]) < FirstIndex(s, x) {
          assert d[i] == d'[i] && d'[i] in p;
        }
      }
    }
  }

  /** Every entry is lower case, since every token was lower-cased first. */
  lemma DedupOfLowerIsLower(tokens: seq<string>)
    ensures forall w :: w in Dedup(LowerAll(tokens)) ==> IsLowerCase(w)
  {
    DedupProperties(LowerAll(tokens));
    forall i | 0 <= i < |tokens| ensures IsLowerCase(LowerAll(tokens)[i]) {
      LowerProperties(tokens[i]);
    }
  }

  /** Tokens that differ only in case give one entry. */
  lemma DedupIgnoresCase(tokens: seq<string>, i: nat, j: nat)
    requires i < j < |tokens| && Lower(tokens[i]) == Lower(tokens[j])
    ensures |Dedup(LowerAll(tokens))| < |tokens|
  {
    DedupProperties(LowerAll(tokens));
    DedupShorter(LowerAll(tokens), i, j);
  }

  /** A repeated word makes the result shorter than its input. */
  lemma {:induction false} DedupShorter(s: seq<string>, i: nat, j: nat)
    requires i < j < |s| && s[i] == s[j]
    ensures |Dedup(s)| < |s|
  {
    var p, x := s[..|s| - 1], s[|s| - 1];
    DedupNotLonger(p);
    if j < |s| - 1 {
      DedupShorter(p, i, j);
    } else {
      DedupProperties(p);
      assert x == p[i];
    }
  }

  lemma {:induction false} DedupNotLonger(s: seq<string>)
    ensures |Dedup(s)| <= |s|
  {
    if s != [] {
      DedupNotLonger(s[..|s| - 1]);
    }
  }
}
