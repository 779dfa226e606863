/** The cracking engine of main.cpp: the global dictionary, found-password list and
    candidate counter, loading the dictionary and the credential records, splitting
    the work, one pass of a producer thread, and the final report. Threads, the
    mutex and the atomics are left out: a producer pass runs on its own, the stop
    flag is an input, and the found list is a sequence that only grows. */
module Engine {
  import opened Case
  import opened Hex
  import opened Digests
  import opened PasswordMaps
  import opened Rules
  import opened Dictionary
  import opened Partition

  /** One whitespace-separated line of the credential store: id, email, hex digest. */
  datatype Record = Record(id: nat, email: string, passwordHash: string)

  /** The products of functors[..k] for one word whose digest is a key of the
      credential map, in functor order. */
  function RuleHits(functors: seq<Functor>, k: nat, word: string, round: nat, passwordHashes: PasswordMap): seq<ProducedHashPair>
    requires k <= |functors|
  {
    if k == 0 then []
    else RuleHits(functors, k - 1, word, round, passwordHashes) + Hit(functors[k - 1](word, round), passwordHashes)
  }

  /** What the loop over all functors appends for one word. */
  function WordHits(functors: seq<Functor>, word: string, round: nat, passwordHashes: PasswordMap): seq<ProducedHashPair> {
    RuleHits(functors, |functors|, word, round, passwordHashes)
  }

  /** The product, if its digest is a key of the credential map. */
  function Hit(p: ProducedHashPair, passwordHashes: PasswordMap): seq<ProducedHashPair> {
    if Contains(passwordHashes, p.hash) then [p] else []
  }

  /** What one pass appends to foundPasswords for the words from..to-1 of the dictionary. */
  function PassHits(functors: seq<Functor>, dictionary: seq<string>, from: nat, to: nat, round: nat, passwordHashes: PasswordMap): seq<ProducedHashPair>
    requires from <= to <= |dictionary|
  {
    if from == to then []
    else PassHits(functors, dictionary, from, to - 1, round, passwordHashes) + WordHits(functors, dictionary[to - 1], round, passwordHashes)
  }

  /** found after the rules of word it, given found before them. */
  lemma AppendStep(functors: seq<Functor>, dictionary: seq<string>, begin: nat, it: nat, round: nat, passwordHashes: PasswordMap, start: seq<ProducedHashPair>, found: seq<ProducedHashPair>)
    requires begin <= it < |dictionary|
    requires found == start + PassHits(functors, dictionary, begin, it, round, passwordHashes) + WordHits(functors, dictionary[it], round, passwordHashes)
    ensures found == start + PassHits(functors, dictionary, begin, it + 1, round, passwordHashes)
  {
  }

  function Max(a: nat, b: nat): nat {
    if a < b then b else a
  }

  /** With the stop flag first seen false after word stopAt, a pass over
      [begin, end) stops exactly when some word it processes is at or after stopAt. */
  predicate StopsIn(begin: nat, end: nat, stopAt: nat) {
    Max(begin, stopAt) < end
  }

  /** One past the last word a pass processes. */
  function ProcessedEnd(begin: nat, end: nat, stopAt: nat): (e: nat)
    requires begin <= end
    ensures begin <= e <= end
  {
    if StopsIn(begin, end, stopAt) then Max(begin, stopAt) + 1 else end
  }

  /** The hits of the full passes of rounds 0 .. rounds-1 over [begin, end). */
  function RoundsHits(functors: seq<Functor>, dictionary: seq<string>, begin: nat, end: nat, passwordHashes: PasswordMap, rounds: nat): seq<ProducedHashPair>
    requires begin <= end <= |dictionary|
  {
    if rounds == 0 then []
    else RoundsHits(functors, dictionary, begin, end, passwordHashes, rounds - 1) + PassHits(functors, dictionary, begin, end, rounds - 1, passwordHashes)
  }

  /** The run flag as a producer sees it: it reads false from word stopAt of round
      stopRound on. FlagFrom gives, for one round, the first index at which it
      reads false (end when it stays true for the whole round). */
  function FlagFrom(round: nat, stopRound: nat, stopAt: nat, end: nat): nat {
    if round < stopRound then end else if round == stopRound then stopAt else 0
  }

  lemma RoundStep(count: nat, round: nat, size: nat)
    ensures count + round * size + size == count + (round + 1) * size
  {
  }

  /** found after a full pass of round r, given found before the rounds. */
  lemma RoundsAppendStep(functors: seq<Functor>, dictionary: seq<string>, begin: nat, end: nat, passwordHashes: PasswordMap, r: nat, start: seq<ProducedHashPair>, found: seq<ProducedHashPair>)
    requires begin <= end <= |dictionary|
    requires found == start + RoundsHits(functors, dictionary, begin, end, passwordHashes, r) + PassHits(functors, dictionary, begin, end, r, passwordHashes)
    ensures found == start + RoundsHits(functors, dictionary, begin, end, passwordHashes, r + 1)
  {
  }

  /** The global state of main.cpp. */
  class Cracker {
    var dictionary: seq<string>
    var foundPasswords: seq<ProducedHashPair>
    var n: nat
    /** SINGLE_WORD_FUNCTORS over the given MD5. */
    const functors: seq<Functor>

    constructor (md5: Md5)
      ensures dictionary == [] && foundPasswords == [] && n == 0
      ensures functors == SingleWordFunctors(md5)
    {
      functors := SingleWordFunctors(md5);
      dictionary := [];
      foundPasswords := [];
      n := 0;
    }

    /** loadDictionary over the tokens the stream yields. */
    method LoadDictionary(tokens: seq<string>)
      modifies this`dictionary
      ensures dictionary == Dedup(LowerAll(tokens))
    {
      dictionary := [];
      var passwordSet: set<string> := {};
      var i := 0;
      while i < |tokens|
        invariant 0 <= i <= |tokens|
        invariant dictionary == Dedup(LowerAll(tokens)[..i])
        invariant forall w :: w in passwordSet <==> w in dictionary
      {
        var token := tokens[i];
        var buffer := new char[|token|](k requires 0 <= k < |token| => token[k]);
        assert buffer[..] == token;
        ToLower(buffer);
        var word := buffer[..];
        var inserted := word !in passwordSet;
        passwordSet := passwordSet + {word};
        if inserted {
          dictionary := dictionary + [word];
        }
        assert LowerAll(tokens)[..i + 1] == LowerAll(tokens)[..i] + [word];
        i := i + 1;
      }
      assert LowerAll(tokens)[..i] == LowerAll(tokens);
    }

    /** The body of threadMain's loop over SINGLE_WORD_FUNCTORS: every product
        whose digest is a key of the map is appended to foundPasswords, in functor order. */
    method TryRules(word: string, passwordHashes: PasswordMap, round: nat)
      modifies this`foundPasswords
      ensures foundPasswords == old(foundPasswords) + WordHits(functors, word, round, passwordHashes)
    {
      var k := 0;
      while k < |functors|
        invariant 0 <= k <= |functors|
        invariant foundPasswords == old(foundPasswords) + RuleHits(functors, k, word, round, passwordHashes)
      {
        var newProduct := functors[k](word, round);
        if Contains(passwordHashes, newProduct.hash) {
          foundPasswords := foundPasswords + [newProduct];
        }
        k := k + 1;
      }
    }

    /** One pass of threadMain over [begin, end) in the given round. The run flag
        is read after the three functors of each word and reads false from word
        stopAt on. */
    method ProducerPass(begin: nat, end: nat, passwordHashes: PasswordMap, round: nat, stopAt: nat)
      returns (stopped: bool, nextRound: nat)
      requires begin <= end <= |dictionary|
      modifies this`foundPasswords, this`n
      ensures stopped <==> StopsIn(begin, end, stopAt)
      ensures foundPasswords == old(foundPasswords) + PassHits(functors, dictionary, begin, ProcessedEnd(begin, end, stopAt), round, passwordHashes)
      ensures stopped ==> n == old(n) + (end - Max(begin, stopAt)) && nextRound == round
      ensures !stopped ==> n == old(n) + |dictionary| && nextRound == round + 1
    {
      var it := begin;
      while it < end
        invariant begin <= it <= end
        invariant it <= Max(begin, stopAt)
        invariant foundPasswords == old(foundPasswords) + PassHits(functors, dictionary, begin, it, round, passwordHashes)
        invariant n == old(n)
      {
        TryRules(dictionary[it], passwordHashes, round);
        AppendStep(functors, dictionary, begin, it, round, passwordHashes, old(foundPasswords), foundPasswords);
        if it >= stopAt {
          n := n + (end - it);
          return true, round;
        }
        it := it + 1;
      }
      n := n + |dictionary|;
      return false, round + 1;
    }

    /** threadMain: passes over [begin, end) in rounds 0, 1, ... until the run flag
        is seen false. */
    method ThreadMain(begin: nat, end: nat, passwordHashes: PasswordMap, stopRound: nat, stopAt: nat)
      returns (lastRound: nat)
      requires begin < end <= |dictionary|
      modifies this`foundPasswords, this`n
      ensures lastRound == if StopsIn(begin, end, stopAt) then stopRound else stopRound + 1
      ensures foundPasswords == old(foundPasswords)
                              + RoundsHits(functors, dictionary, begin, end, passwordHashes, lastRound)
                              + PassHits(functors, dictionary, begin, ProcessedEnd(begin, end, FlagFrom(lastRound, stopRound, stopAt, end)), lastRound, passwordHashes)
      ensures n == old(n) + lastRound * |dictionary| + (end - Max(begin, FlagFrom(lastRound, stopRound, stopAt, end)))
    {
      var round := 0;
      while true
        invariant round <= stopRound || (round == stopRound + 1 && !StopsIn(begin, end, stopAt))
        invariant foundPasswords == old(foundPasswords) + RoundsHits(functors, dictionary, begin, end, passwordHashes, round)
        invariant n == old(n) + round * |dictionary|
        decreases stopRound + 1 - round
      {
        var flagFrom := FlagFrom(round, stopRound, stopAt, end);
        var stopped, nextRound := ProducerPass(begin, end, passwordHashes, round, flagFrom);
        if stopped {
          assert round >= stopRound;
          return round;
        }
        assert round <= stopRound && ProcessedEnd(begin, end, flagFrom) == end;
        RoundStep(old(n), round, |dictionary|);
        RoundsAppendStep(functors, dictionary, begin, end, passwordHashes, round, old(foundPasswords), foundPasswords);
        round := nextRound;
      }
    }

    /** launchProducerThreads: appends one slice per producer thread. */
    method LaunchProducerThreads(producerThreads: seq<Slice>, hardwareConcurrency: nat) returns (r: seq<Slice>)
      ensures r == producerThreads + Slices(|dictionary|, ThreadCount(hardwareConcurrency))
    {
      r := producerThreads;
      var n := ThreadCount(hardwareConcurrency);
      var s := |dictionary| / n;
      var i := 0;
      if s > 0 {
        while i < n - 1
          invariant 0 <= i <= n - 1
          invariant r == producerThreads + EqualSlices(s, i)
        {
          r := r + [Slice(s * i, s * (i + 1))];
          i := i + 1;
        }
      }
      r := r + [Slice(s * i, |dictionary|)];
    }
  }

  /** p is the product of one of functors[..k] on word, and its digest is a key of the map. */
  predicate RuleProduces(functors: seq<Functor>, k: nat, word: string, round: nat, passwordHashes: PasswordMap, p: ProducedHashPair)
    requires k <= |functors|
  {
    exists j :: 0 <= j < k && p == functors[j](word, round) && Contains(passwordHashes, p.hash)
  }

  lemma {:induction false} RuleHitsMembership(functors: seq<Functor>, k: nat, word: string, round: nat, passwordHashes: PasswordMap, p: ProducedHashPair)
    requires k <= |functors|
    ensures p in RuleHits(functors, k, word, round, passwordHashes) <==> RuleProduces(functors, k, word, round, passwordHashes, p)
  {
    if k > 0 {
      RuleHitsMembership(functors, k - 1, word, round, passwordHashes, p);
    }
  }

  /** A hit of a pass is a hit of one of the words it processes. */
  lemma {:induction false} PassHitsWitness(functors: seq<Functor>, dictionary: seq<string>, from: nat, to: nat, round: nat, passwordHashes: PasswordMap, p: ProducedHashPair)
    returns (i: nat)
    requires from <= to <= |dictionary|
    requires p in PassHits(functors, dictionary, from, to, round, passwordHashes)
    ensures from <= i < to && p in WordHits(functors, dictionary[i], round, passwordHashes)
  {
    var earlier := PassHits(functors, dictionary, from, to - 1, round, passwordHashes);
    SeqMember(earlier, WordHits(functors, dictionary[to - 1], round, passwordHashes), p);
    if p in earlier {
      i := PassHitsWitness(functors, dictionary, from, to - 1, round, passwordHashes, p);
    } else {
      i := to - 1;
    }
  }

  /** Every hit of a word the pass processes is a hit of the pass. */
  lemma {:induction false} PassHitsInclude(functors: seq<Functor>, dictionary: seq<string>, from: nat, to: nat, round: nat, passwordHashes: PasswordMap, i: nat, p: ProducedHashPair)
    requires from <= i < to <= |dictionary|
    requires p in WordHits(functors, dictionary[i], round, passwordHashes)
    ensures p in PassHits(functors, dictionary, from, to, round, passwordHashes)
  {
    var earlier := PassHits(functors, dictionary, from, to - 1, round, passwordHashes);
    SeqMember(earlier, WordHits(functors, dictionary[to - 1], round, passwordHashes), p);
    if i < to - 1 {
      PassHitsInclude(functors, dictionary, from, to - 1, round, passwordHashes, i, p);
    }
  }

  /** A pass records exactly the hits of the words it processes; with
      RuleHitsMembership, exactly the products of the functors on those words whose
      digest is a key of the credential map. */
  lemma PassHitsMembership(functors: seq<Functor>, dictionary: seq<string>, from: nat, to: nat, round: nat, passwordHashes: PasswordMap, p: ProducedHashPair)
    requires from <= to <= |dictionary|
    ensures p in PassHits(functors, dictionary, from, to, round, passwordHashes)
        <==> exists i :: from <= i < to && p in WordHits(functors, dictionary[i], round, passwordHashes)
  {
    if p in PassHits(functors, dictionary, from, to, round, passwordHashes) {
      var i := PassHitsWitness(functors, dictionary, from, to, round, passwordHashes, p);
    }
    forall i | from <= i < to && p in WordHits(functors, dictionary[i], round, passwordHashes)
      ensures p in PassHits(functors, dictionary, from, to, round, passwordHashes)
    {
      PassHitsInclude(functors, dictionary, from, to, round, passwordHashes, i, p);
    }
  }

  lemma SeqMember<T>(a: seq<T>, b: seq<T>, x: T)
    ensures x in a + b <==> x in a || x in b
  {
  }

  /** Hits come word by word: those of earlier words precede those of later ones. */
  lemma {:induction false} PassHitsSplit(functors: seq<Functor>, dictionary: seq<string>, from: nat, mid: nat, to: nat, round: nat, passwordHashes: PasswordMap)
    requires from <= mid <= to <= |dictionary|
    ensures PassHits(functors, dictionary, from, to, round, passwordHashes)
         == PassHits(functors, dictionary, from, mid, round, passwordHashes) + PassHits(functors, dictionary, mid, to, round, passwordHashes)
  {
    if mid < to {
      PassHitsSplit(functors, dictionary, from, mid, to - 1, round, passwordHashes);
    }
  }

  /** A word's hits follow the order of SINGLE_WORD_FUNCTORS. */
  lemma WordHitsInRuleOrder(md5: Md5, word: string, round: nat, passwordHashes: PasswordMap)
    ensures WordHits(SingleWordFunctors(md5), word, round, passwordHashes)
         == Hit(AsIsOrSuffix(word, round, md5), passwordHashes)
          + Hit(CapitalizeOrSuffix(word, round, md5), passwordHashes)
          + Hit(UpperOrSuffix(word, round, md5), passwordHashes)
  {
    var fs := SingleWordFunctors(md5);
    var h0 := Hit(fs[0](word, round), passwordHashes);
    var h1 := Hit(fs[1](word, round), passwordHashes);
    var h2 := Hit(fs[2](word, round), passwordHashes);
    assert h0 == Hit(AsIsOrSuffix(word, round, md5), passwordHashes);
    assert h1 == Hit(CapitalizeOrSuffix(word, round, md5), passwordHashes);
    assert h2 == Hit(UpperOrSuffix(word, round, md5), passwordHashes);
    assert RuleHits(fs, 1, word, round, passwordHashes) == h0;
    assert RuleHits(fs, 2, word, round, passwordHashes) == h0 + h1;
    assert RuleHits(fs, 3, word, round, passwordHashes) == h0 + h1 + h2;
  }

  /** A pass that is stopped processes the word at which it reads the flag, and no later word. */
  lemma StoppedPassStopsAtFlag(begin: nat, end: nat, stopAt: nat)
    requires begin <= end && StopsIn(begin, end, stopAt)
    ensures ProcessedEnd(begin, end, stopAt) == Max(begin, stopAt) + 1
    ensures begin < ProcessedEnd(begin, end, stopAt) <= end
  {
  }

  /** A pass over an empty slice never reads the flag, so it never stops. */
  lemma EmptySliceNeverStops(begin: nat, stopAt: nat)
    ensures !StopsIn(begin, begin, stopAt)
  {
  }

  /** loadPasswords over the records the stream yields: each digest text is parsed by
      storeHash and inserted with its email; a failing parse ends the load with its
      exception. */
  method LoadPasswords(records: seq<Record>, passwords: PasswordMap) returns (r: Result<PasswordMap>)
    ensures r.Ok? <==> forall i :: 0 <= i < |records| ==> StoreHash(records[i].passwordHash).Ok?
    ensures r.Err? ==> exists i :: 0 <= i < |records| && StoreHash(records[i].passwordHash) == Err(r.error)
                               && forall j :: 0 <= j < i ==> StoreHash(records[j].passwordHash).Ok?
    ensures r.Ok? ==> (&& |passwords.entries| <= |r.value.entries|
                       && r.value.entries[..|passwords.entries|] == passwords.entries
                       && LoadedFrom(r.value.entries[|passwords.entries|..], records))
  {
    var loaded := passwords;
    var i := 0;
    while i < |records|
      invariant 0 <= i <= |records|
      invariant forall j :: 0 <= j < i ==> StoreHash(records[j].passwordHash).Ok?
      invariant |passwords.entries| <= |loaded.entries| && loaded.entries[..|passwords.entries|] == passwords.entries
      invariant LoadedFrom(loaded.entries[|passwords.entries|..], records[..i])
    {
      var hash := StoreHash(records[i].passwordHash);
      if hash.Err? {
        return Err(hash.error);
      }
      var before := loaded;
      loaded := Insert(loaded, hash.value, records[i].email);
      assert loaded.entries[|passwords.entries|..] == before.entries[|passwords.entries|..] + [Entry(hash.value, records[i].email)];
      i := i + 1;
    }
    assert records[..i] == records;
    return Ok(loaded);
  }

  /** entries are the records' digests and emails, one for one. */
  predicate LoadedFrom(entries: seq<Entry>, records: seq<Record>) {
    && |entries| == |records|
    && forall i :: 0 <= i < |records| ==>
         StoreHash(records[i].passwordHash) == Ok(entries[i].key) && entries[i].account == records[i].email
  }

  /** After loading, equal_range(h) yields exactly the emails of the records whose
      digest text parses to h, however many share it. */
  lemma LoadedAccounts(entries: seq<Entry>, records: seq<Record>, h: Hash, account: string)
    requires LoadedFrom(entries, records)
    ensures account in EqualRange(PasswordMap(entries), h)
        <==> exists i :: 0 <= i < |records| && StoreHash(records[i].passwordHash) == Ok(h) && records[i].email == account
  {
    EqualRangeMembership(PasswordMap(entries), h, account);
    if Entry(h, account) in entries {
      var i :| 0 <= i < |entries| && entries[i] == Entry(h, account);
      assert StoreHash(records[i].passwordHash) == Ok(h);
    }
    if exists i :: 0 <= i < |records| && StoreHash(records[i].passwordHash) == Ok(h) && records[i].email == account {
      var i :| 0 <= i < |records| && StoreHash(records[i].passwordHash) == Ok(h) && records[i].email == account;
      assert entries[i] == Entry(h, account);
    }
  }

  /** The lines main prints at the end: each found candidate with each account its digest maps to. */
  function ReportLines(found: seq<ProducedHashPair>, passwordHashes: PasswordMap): seq<(string, string)> {
    if found == [] then []
    else
      var p := found[|found| - 1];
      var accounts := EqualRange(passwordHashes, p.hash);
      ReportLines(found[..|found| - 1], passwordHashes) + seq(|accounts|, i requires 0 <= i < |accounts| => (p.candidate, accounts[i]))
  }

  lemma {:induction false} ReportLinesMembership(found: seq<ProducedHashPair>, passwordHashes: PasswordMap, candidate: string, account: string)
    ensures (candidate, account) in ReportLines(found, passwordHashes)
        <==> exists i :: 0 <= i < |found| && found[i].candidate == candidate && Entry(found[i].hash, account) in passwordHashes.entries
  {
    if found != [] {
      var p := found[|found| - 1];
      var accounts := EqualRange(passwordHashes, p.hash);
      var tail := seq(|accounts|, i requires 0 <= i < |accounts| => (p.candidate, accounts[i]));
      ReportLinesMembership(found[..|found| - 1], passwordHashes, candidate, account);
      EqualRangeMembership(passwordHashes, p.hash, account);
      if candidate == p.candidate && account in accounts {
        var k :| 0 <= k < |accounts| && accounts[k] == account;
        assert tail[k] == (candidate, account);
      }
      if (candidate, account) in tail {
        var k :| 0 <= k < |tail| && tail[k] == (candidate, account);
        assert accounts[k] == account;
      }
      if exists i :: 0 <= i < |found| && found[i].candidate == candidate && Entry(found[i].hash, account) in passwordHashes.entries {
        var i :| 0 <= i < |found| && found[i].candidate == candidate && Entry(found[i].hash, account) in passwordHashes.entries;
        if i < |found| - 1 {
          assert found[..|found| - 1][i] == found[i];
        }
      }
    }
  }

  /** With dictionary ["admin", "test"] and one credential whose digest is that of
      "Admin1", the pass of round 2 finds "Admin1" and the report names the account. */
  lemma AdminScenario(md5: Md5)
    ensures var passwordHashes := Insert(EmptyMap, HashOf(md5, "Admin1"), "alice");
            var found := PassHits(SingleWordFunctors(md5), ["admin", "test"], 0, 2, 2, passwordHashes);
            && ProducedHashPair("Admin1", HashOf(md5, "Admin1")) in found
            && (forall p :: p in found ==> p.hash == HashOf(md5, "Admin1"))
            && ("Admin1", "alice") in ReportLines(found, passwordHashes)
  {
    var functors := SingleWordFunctors(md5);
    var passwordHashes := Insert(EmptyMap, HashOf(md5, "Admin1"), "alice");
    var dictionary := ["admin", "test"];
    var found := PassHits(functors, dictionary, 0, 2, 2, passwordHashes);
    var p := ProducedHashPair("Admin1", HashOf(md5, "Admin1"));
    assert Capitalized("admin") == "Admin" by {
      assert UpperChar('a') == 'A';
      assert "admin"[1..] == "dmin";
    }
    assert RoundSuffix(2) == "1" by {
      assert Decimals.Decimal(1) == "1";
    }
    assert CapitalizeOrSuffix("admin", 2, md5) == p by {
      assert "Admin" + "1" == "Admin1";
    }
    assert functors[1](dictionary[0], 2) == p;
    assert Contains(passwordHashes, p.hash) by {
      assert passwordHashes.entries[0].key == p.hash;
    }
    assert RuleProduces(functors, |functors|, dictionary[0], 2, passwordHashes, p);
    RuleHitsMembership(functors, |functors|, dictionary[0], 2, passwordHashes, p);
    PassHitsMembership(functors, dictionary, 0, 2, 2, passwordHashes, p);
    forall q | q in found ensures q.hash == HashOf(md5, "Admin1") {
      PassHitsMembership(functors, dictionary, 0, 2, 2, passwordHashes, q);
      var w :| 0 <= w < 2 && q in WordHits(functors, dictionary[w], 2, passwordHashes);
      RuleHitsMembership(functors, |functors|, dictionary[w], 2, passwordHashes, q);
      assert Contains(passwordHashes, q.hash);
      assert passwordHashes.entries[0].key == q.hash;
    }
    ReportLinesMembership(found, passwordHashes, "Admin1", "alice");
    var i :| 0 <= i < |found| && found[i] == p;
    assert Entry(found[i].hash, "alice") in passwordHashes.entries;
  }
}
