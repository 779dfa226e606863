/** PasswordMap (hash.h): std::unordered_multimap<Hash, std::string, HashMapFunctor>.
    The model keeps its elements in insertion order; the bucket layout is not
    modelled, since lookups decide by Equal alone. */
module PasswordMaps {
  import opened Digests

  datatype Entry = Entry(key: Hash, account: string)

  datatype PasswordMap = PasswordMap(entries: seq<Entry>)

  const EmptyMap: PasswordMap := PasswordMap([])

  /** map.insert(make_pair(h, account)): a multimap keeps every insertion. */
  function Insert(m: PasswordMap, h: Hash, account: string): PasswordMap {
    PasswordMap(m.entries + [Entry(h, account)])
  }

  /** The accounts equal_range(h) visits. */
  function EqualRange(m: PasswordMap, h: Hash): seq<string>
    decreases |m.entries|
  {
    if m.entries == [] then []
    else
      var rest := EqualRange(PasswordMap(m.entries[..|m.entries| - 1]), h);
      var e := m.entries[|m.entries| - 1];
      if Equal(e.key, h) then rest + [e.account] else rest
  }

  /** find(h) != end(): some element's key is == h. */
  predicate Contains(m: PasswordMap, h: Hash) {
    exists i :: 0 <= i < |m.entries| && Equal(m.entries[i].key, h)
  }

  /** find and equal_range agree: find(h) succeeds exactly when equal_range(h) is not empty. */
  lemma {:induction false} ContainsIffEqualRange(m: PasswordMap, h: Hash)
    ensures Contains(m, h) <==> EqualRange(m, h) != []
    decreases |m.entries|
  {
    if m.entries != [] {
      var p := PasswordMap(m.entries[..|m.entries| - 1]);
      ContainsIffEqualRange(p, h);
      assert forall i :: 0 <= i < |p.entries| ==> p.entries[i] == m.entries[i];
      if Contains(m, h) && !Equal(m.entries[|m.entries| - 1].key, h) {
        var i :| 0 <= i < |m.entries| && Equal(m.entries[i].key, h);
        assert Equal(p.entries[i].key, h);
      }
    }
  }

  /** equal_range(h) returns exactly the accounts stored under h. */
  lemma {:induction false} EqualRangeMembership(m: PasswordMap, h: Hash, account: string)
    ensures account in EqualRange(m, h) <==> Entry(h, account) in m.entries
    decreases |m.entries|
  {
    if m.entries != [] {
      var p := PasswordMap(m.entries[..|m.entries| - 1]);
      EqualRangeMembership(p, h, account);
      assert m.entries == p.entries + [m.entries[|m.entries| - 1]];
    }
  }

  /** Inserting accounts one after another under one digest keeps all of them, in order. */
  function InsertAll(m: PasswordMap, h: Hash, accounts: seq<string>): PasswordMap
  {
    if accounts == [] then m else Insert(InsertAll(m, h, accounts[..|accounts| - 1]), h, accounts[|accounts| - 1])
  }

  lemma {:induction false} EqualRangeInsertAll(m: PasswordMap, h: Hash, accounts: seq<string>)
    ensures EqualRange(InsertAll(m, h, accounts), h) == EqualRange(m, h) + accounts
  {
    if accounts != [] {
      EqualRangeInsertAll(m, h, accounts[..|accounts| - 1]);
      assert accounts == accounts[..|accounts| - 1] + [accounts[|accounts| - 1]];
    }
  }

  /** Inserting under one digest does not change what another digest finds. */
  lemma EqualRangeInsertOther(m: PasswordMap, h: Hash, k: Hash, account: string)
    requires !Equal(h, k)
    ensures EqualRange(Insert(m, h, account), k) == EqualRange(m, k)
  {
    assert Insert(m, h, account).entries[..|m.entries|] == m.entries;
  }
}
