/**
 The life of CA keys over sequential runs (internal/ca/ca.go, internal/store/ca_keys.go), in managed and
 in self-managed mode. Store calls may fail (`works`), freshly generated key material is an input.
 */
module CALifecycle {
  import opened Common

  datatype Purpose = User | Host | MTLS

  datatype KeyState = Active | Retiring | Retired

  datatype Row = Row(purpose: Purpose, publicKey: string, hasPrivateKey: bool, state: KeyState)

  /** Keys are numbered in order of creation. */
  type Key = nat
  type Keys = map<Key, Row>

  /** The public halves of the mounted key files. */
  datatype External = External(user: string, host: string, mtls: string)

  datatype Issuance = Issuance(certType: Purpose, key: Key)

  function Rank(s: KeyState): nat {
    match s case Active => 0 case Retiring => 1 case Retired => 2
  }

  /** The keys of a purpose that are not retired, newest first (ListActiveCAKeys). */
  function ListActive(keys: Keys, purpose: Purpose, n: Key): (r: seq<Key>)
    ensures forall k :: k in r <==> k < n && k in keys && keys[k].purpose == purpose && !keys[k].state.Retired?
    ensures forall i, j :: 0 <= i < j < |r| ==> r[i] > r[j]
  {
    if n == 0 then []
    else
      var older := ListActive(keys, purpose, n - 1);
      assert forall j :: 0 <= j < |older| ==> older[j] in older;
      (if n - 1 in keys && keys[n - 1].purpose == purpose && !keys[n - 1].state.Retired? then [n - 1] else []) + older
  }

  function PublicKeys(keys: Keys, listed: seq<Key>): seq<string>
    requires forall k :: k in listed ==> k in keys
  {
    seq(|listed|, i requires 0 <= i < |listed| => (assert listed[i] in listed; keys[listed[i]].publicKey))
  }

  /**
   One operation may have this effect on the key table: rows stay, keep purpose and public key, states
   only move forward, and only the key passed to RetireKey becomes retired.
   */
  ghost predicate Forward(keys: Keys, keys': Keys, retired: set<Key>) {
    forall k :: k in keys ==>
      && k in keys' && keys'[k].(state := keys[k].state) == keys[k]
      && Rank(keys[k].state) <= Rank(keys'[k].state)
      && (keys'[k].state.Retired? && !keys[k].state.Retired? ==> k in retired)
  }

  predicate InBundle(keys: Keys, k: Key, purpose: Purpose) {
    k in keys && keys[k].purpose == purpose && !keys[k].state.Retired?
  }

  /** The certificate's key has its purpose, and is distributed unless it was passed to RetireKey. */
  predicate Sound(keys: Keys, i: Issuance, passed: set<Key>) {
    && i.key in keys && keys[i.key].purpose == i.certType
    && (InBundle(keys, i.key, i.certType) || i.key in passed)
  }

  /** Rows stay as they are, but for active ones of the purpose, which may be demoted. */
  ghost predicate OnlyDemotes(keys: Keys, keys': Keys, purpose: Purpose) {
    forall k :: k in keys ==>
      && k in keys'
      && (keys'[k] == keys[k]
          || (keys[k].purpose == purpose && keys[k].state.Active? && keys'[k] == keys[k].(state := Retiring)))
  }

  /** Rows stay as they are, but for active ones, which may be demoted. */
  ghost predicate DemotesAtMost(keys: Keys, keys': Keys) {
    forall k :: k in keys ==>
      && k in keys'
      && (keys'[k] == keys[k] || (keys[k].state.Active? && keys'[k] == keys[k].(state := Retiring)))
  }

  lemma DemotionsAddUp(a: Keys, b: Keys, c: Keys, purpose: Purpose)
    requires DemotesAtMost(a, b) && OnlyDemotes(b, c, purpose)
    ensures DemotesAtMost(a, c)
  {
  }

  predicate IsActive(keys: Keys, k: Key, purpose: Purpose) {
    k in keys && keys[k].purpose == purpose && keys[k].state.Active?
  }

  ghost predicate HasActive(keys: Keys, purpose: Purpose) {
    exists k :: IsActive(keys, k, purpose)
  }

  /** Some key of the purpose is distributed, active or not. */
  ghost predicate HasListed(keys: Keys, purpose: Purpose) {
    exists k :: InBundle(keys, k, purpose)
  }

  lemma ListedExactly(keys: Keys, purpose: Purpose, n: Key)
    requires forall k :: k in keys ==> k < n
    ensures HasListed(keys, purpose) <==> ListActive(keys, purpose, n) != []
  {
    if k :| InBundle(keys, k, purpose) {
      assert k in ListActive(keys, purpose, n);
    }
    if ListActive(keys, purpose, n) != [] {
      assert ListActive(keys, purpose, n)[0] in ListActive(keys, purpose, n);
      assert InBundle(keys, ListActive(keys, purpose, n)[0], purpose);
    }
  }

  predicate IsNewestActive(keys: Keys, k: Key, purpose: Purpose) {
    IsActive(keys, k, purpose) && forall l :: l in keys && IsActive(keys, l, purpose) ==> l <= k
  }

  /** A signer of the purpose is cached, or in managed mode can be built from the newest active key. */
  ghost predicate CanSign(
    keys: Keys, signers: map<Purpose, Key>, external: Option<External>, purpose: Purpose, storeWorks: bool)
  {
    || purpose in signers
    || (external.None? && storeWorks && exists k :: IsNewestActive(keys, k, purpose) && keys[k].hasPrivateKey)
  }

  function WithState(keys: Keys, k: Key, s: KeyState): Keys
    requires k in keys
  {
    keys[k := keys[k].(state := s)]
  }

  /** What holds between operations: unique keys, and sound signers and certificates. */
  ghost predicate Consistent(
    keys: Keys, nextKey: Key, signers: map<Purpose, Key>, issued: seq<Issuance>, passed: set<Key>)
  {
    && (forall k :: k in keys ==> k < nextKey)
    && Unique(keys)
    && (forall p :: p in signers ==> Sound(keys, Issuance(p, signers[p]), passed))
    && (forall i :: 0 <= i < |issued| ==> Sound(keys, issued[i], passed))
  }

  /** What the bootstrap makes of a purpose. */
  ghost predicate Bootstrapped(keys: Keys, keys': Keys, purpose: Purpose) {
    && HasListed(keys', purpose)
    && (HasActive(keys', purpose) <==> HasActive(keys, purpose) || !HasListed(keys, purpose))
  }

  /** The bootstrap of one purpose leaves the keys of the other alone. */
  lemma SamePurposeKeys(keys: Keys, keys': Keys, purpose: Purpose)
    requires forall k :: k in keys ==> k in keys' && keys'[k] == keys[k]
    requires forall k :: k in keys' && keys'[k].purpose == purpose ==> k in keys
    ensures HasActive(keys', purpose) == HasActive(keys, purpose)
    ensures HasListed(keys', purpose) == HasListed(keys, purpose)
  {
    if k :| IsActive(keys, k, purpose) {
      assert IsActive(keys', k, purpose);
    }
    if k :| IsActive(keys', k, purpose) {
      assert IsActive(keys, k, purpose);
    }
    if k :| InBundle(keys, k, purpose) {
      assert InBundle(keys', k, purpose);
    }
    if k :| InBundle(keys', k, purpose) {
      assert InBundle(keys, k, purpose);
    }
  }

  /** UNIQUE (purpose, public_key). */
  ghost predicate Unique(keys: Keys) {
    forall k, l :: k in keys && l in keys && k != l ==>
      keys[k].purpose != keys[l].purpose || keys[k].publicKey != keys[l].publicKey
  }

  lemma ForwardTransitive(a: Keys, b: Keys, c: Keys, r: set<Key>)
    requires Forward(a, b, r) && Forward(b, c, r)
    ensures Forward(a, c, r)
  {
  }

  /** Moving states forward, with the retired keys on record, keeps everything consistent. */
  lemma StatesKeepConsistent(
    keys: Keys, keys': Keys, nextKey: Key, signers: map<Purpose, Key>, issued: seq<Issuance>,
    passed: set<Key>, passed': set<Key>)
    requires Consistent(keys, nextKey, signers, issued, passed)
    requires keys'.Keys == keys.Keys && passed <= passed' && Forward(keys, keys', passed')
    ensures Consistent(keys', nextKey, signers, issued, passed')
  {
    forall k, l | k in keys' && l in keys' && k != l
      ensures keys'[k].purpose != keys'[l].purpose || keys'[k].publicKey != keys'[l].publicKey
    {
      assert keys'[k].purpose == keys[k].purpose && keys'[k].publicKey == keys[k].publicKey;
      assert keys'[l].purpose == keys[l].purpose && keys'[l].publicKey == keys[l].publicKey;
    }
  }

  lemma InsertKeepsConsistent(
    keys: Keys, row: Row, nextKey: Key, signers: map<Purpose, Key>, issued: seq<Issuance>, passed: set<Key>)
    requires Consistent(keys, nextKey, signers, issued, passed)
    requires forall k :: k in keys ==> keys[k].purpose != row.purpose || keys[k].publicKey != row.publicKey
    ensures Consistent(keys[nextKey := row], nextKey + 1, signers, issued, passed)
    ensures nextKey !in keys && Forward(keys, keys[nextKey := row], {})
  {
  }

  lemma OneStateForward(keys: Keys, k: Key, s: KeyState, retired: set<Key>)
    requires k in keys && Rank(keys[k].state) <= Rank(s) && (s.Retired? ==> k in retired)
    ensures Forward(keys, WithState(keys, k, s), retired) && WithState(keys, k, s).Keys == keys.Keys
  {
  }

  /** The demotion inside AdoptCAKey. */
  function Superseded(keys: Keys, purpose: Purpose, key: Key): Keys {
    map k | k in keys.Keys ::
      if keys[k].purpose == purpose && keys[k].state.Active? && k != key then keys[k].(state := Retiring) else keys[k]
  }

  lemma SupersededForward(keys: Keys, purpose: Purpose, key: Key)
    ensures Superseded(keys, purpose, key).Keys == keys.Keys
    ensures Forward(keys, Superseded(keys, purpose, key), {})
    ensures key in keys ==> Superseded(keys, purpose, key)[key] == keys[key]
    ensures
      var after := Superseded(keys, purpose, key);
      forall k :: k in after && after[k].purpose == purpose && after[k].state.Active? ==> k == key
  {
  }

  /** The demotion loop of Rotate after it went through some keys. */
  function DemotedFirst(keys: Keys, demoted: seq<Key>): Keys {
    map k | k in keys.Keys ::
      if k in demoted && keys[k].state.Active? then keys[k].(state := Retiring) else keys[k]
  }

  lemma DemotedFirstStep(keys: Keys, previous: seq<Key>, i: nat)
    requires i < |previous| && previous[i] in keys
    ensures
      var now := DemotedFirst(keys, previous[..i]);
      DemotedFirst(keys, previous[..i + 1])
      == if now[previous[i]].state.Active? then WithState(now, previous[i], Retiring) else now
  {
    assert forall k :: k in previous[..i + 1] <==> k in previous[..i] || k == previous[i];
  }

  lemma DemotedFirstForward(keys: Keys, demoted: seq<Key>)
    ensures DemotedFirst(keys, demoted).Keys == keys.Keys && Forward(keys, DemotedFirst(keys, demoted), {})
  {
  }

  /** Moves the active ones among the given keys to retiring, one store call each, until one fails. */
  method DemoteAll(keys: Keys, previous: seq<Key>, works: nat -> bool) returns (keys': Keys, n: nat)
    requires forall i :: 0 <= i < |previous| ==> previous[i] in keys
    ensures n <= |previous| && keys' == DemotedFirst(keys, previous[..n])
  {
    keys', n := keys, 0;
    assert previous[..0] == [] && DemotedFirst(keys, []) == keys;
    while n < |previous|
      invariant n <= |previous| && keys' == DemotedFirst(keys, previous[..n])
    {
      var k := previous[n];
      DemotedFirstStep(keys, previous, n);
      if keys'[k].state.Active? {
        if !works(2 + n) { return; }
        keys' := WithState(keys', k, Retiring);
      }
      n := n + 1;
    }
  }

  lemma RotatedConsistent(
    keys: Keys, previous: seq<Key>, n: nat, key: Key, purpose: Purpose,
    nextKey: Key, signers: map<Purpose, Key>, issued: seq<Issuance>, passed: set<Key>)
    requires Consistent(keys, nextKey, signers, issued, passed) && n <= |previous|
    requires key in keys && key !in previous
    requires forall k :: k in keys && keys[k].purpose == purpose && !keys[k].state.Retired? ==>
               k in previous || k == key
    ensures
      var after := DemotedFirst(keys, previous[..n]);
      && Consistent(after, nextKey, signers, issued, passed) && Forward(keys, after, {})
      && after.Keys == keys.Keys && after[key] == keys[key]
      && (n == |previous| ==>
            forall k :: k in after && after[k].purpose == purpose && after[k].state.Active? ==> k == key)
  {
    DemotedFirstForward(keys, previous[..n]);
    StatesKeepConsistent(keys, DemotedFirst(keys, previous[..n]), nextKey, signers, issued, passed, passed);
    assert forall k :: k in previous[..n] ==> k in previous;
    assert n == |previous| ==> previous[..n] == previous;
  }

  /** After the insert, the listed keys and the new one are all that is not retired. */
  lemma RotateCovers(keys: Keys, created: Keys, n: Key, key: Key, purpose: Purpose)
    requires (forall k :: k in keys ==> k < n && k in created && created[k] == keys[k]) && key !in keys
    requires created.Keys == keys.Keys + {key}
    ensures
      var previous := ListActive(keys, purpose, n);
      && (forall i :: 0 <= i < |previous| ==> previous[i] in created)
      && key !in previous
      && forall k :: k in created && created[k].purpose == purpose && !created[k].state.Retired? ==>
           k in previous || k == key
  {
    var previous := ListActive(keys, purpose, n);
    assert forall i :: 0 <= i < |previous| ==> previous[i] in previous;
  }

  /** The loop demotes active keys of the purpose and nothing else. */
  lemma DemotedFirstOnly(
    keys: Keys, created: Keys, previous: seq<Key>, n: nat, key: Key, purpose: Purpose, next: Key)
    requires previous == ListActive(keys, purpose, next) && n <= |previous|
    requires created.Keys == keys.Keys + {key} && forall k :: k in keys ==> created[k] == keys[k]
    ensures OnlyDemotes(keys, DemotedFirst(created, previous[..n]), purpose)
  {
    assert forall k :: k in previous[..n] ==> k in previous;
  }

  /** The first active key of a list that runs from new to old: the newest one. */
  method FirstActive(keys: Keys, listed: seq<Key>) returns (first: Option<Key>)
    requires forall i :: 0 <= i < |listed| ==> listed[i] in keys
    requires forall i, j :: 0 <= i < j < |listed| ==> listed[i] > listed[j]
    ensures first.None? ==> forall k :: k in listed ==> !keys[k].state.Active?
    ensures first.Some? ==> first.value in listed && keys[first.value].state.Active?
                            && forall k :: k in listed && keys[k].state.Active? ==> k <= first.value
  {
    for i := 0 to |listed|
      invariant forall j :: 0 <= j < i ==> !keys[listed[j]].state.Active?
    {
      if keys[listed[i]].state.Active? {
        return Some(listed[i]);
      }
    }
    return None;
  }

  /** The first active key of the list is the newest one, and there is none exactly if there is no active key. */
  lemma NewestIsFirst(keys: Keys, purpose: Purpose, n: Key, first: Option<Key>)
    requires forall k :: k in keys ==> k < n
    requires
      var listed := ListActive(keys, purpose, n);
      && (first.None? ==> forall k :: k in listed ==> !keys[k].state.Active?)
      && (first.Some? ==> first.value in listed && keys[first.value].state.Active?
                          && forall k :: k in listed && keys[k].state.Active? ==> k <= first.value)
    ensures forall k: Key :: IsNewestActive(keys, k, purpose) <==> first == Some(k)
  {
    forall k: Key
      ensures IsNewestActive(keys, k, purpose) <==> first == Some(k)
    {
      assert IsActive(keys, k, purpose) ==> k in ListActive(keys, purpose, n);
      if first.Some? {
        assert IsActive(keys, first.value, purpose);
      }
    }
  }

  class CA {
    const external: Option<External>
    var keys: Keys
    var nextKey: Key
    var signers: map<Purpose, Key>
    /** History: the certificates issued, and the keys passed to RetireKey. */
    ghost var issued: seq<Issuance>
    ghost var passed: set<Key>

    ghost predicate Valid()
      reads this
    {
      Consistent(keys, nextKey, signers, issued, passed)
    }

    /** A process starts without signers on whatever the store holds; the history is that of its predecessors. */
    constructor (
      external: Option<External>, keys: Keys, nextKey: Key, ghost issued: seq<Issuance>, ghost passed: set<Key>)
      requires Consistent(keys, nextKey, map[], issued, passed)
      ensures Valid() && this.external == external && signers == map[]
      ensures this.keys == keys && this.nextKey == nextKey && this.issued == issued && this.passed == passed
    {
      this.external, this.keys, this.nextKey, this.signers := external, keys, nextKey, map[];
      this.issued, this.passed := issued, passed;
    }

    ghost function ToView(): View
      reads this
    {
      View(keys, issued, passed)
    }

    /** Dropping a cached signer; the mounted signers of self-managed mode are never dropped. */
    method InvalidateSigner(purpose: Purpose)
      requires Valid()
      modifies this`signers
      ensures Valid()
      ensures signers == if external.Some? then old(signers) else old(signers) - {purpose}
    {
      if external.None? {
        signers := signers - {purpose};
      }
    }

    /** The store refuses a second row with the same purpose and public key. */
    method InsertKey(purpose: Purpose, publicKey: string, private: bool) returns (key: Key, ok: bool)
      requires Valid()
      modifies this`keys, this`nextKey
      ensures Valid() && Forward(old(keys), keys, {})
      ensures ok <==> forall k :: k in old(keys) ==>
                        old(keys)[k].purpose != purpose || old(keys)[k].publicKey != publicKey
      ensures !ok ==> keys == old(keys)
      ensures ok ==> key !in old(keys) && keys == old(keys)[key := Row(purpose, publicKey, private, Active)]
    {
      key := nextKey;
      ok := forall k :: k in keys.Keys ==> keys[k].purpose != purpose || keys[k].publicKey != publicKey;
      if ok {
        InsertKeepsConsistent(keys, Row(purpose, publicKey, private, Active), nextKey, signers, issued, passed);
        keys := keys[key := Row(purpose, publicKey, private, Active)];
        nextKey := nextKey + 1;
      }
    }

    /** Creates and audits a key; refused in self-managed mode. */
    method CreateKey(purpose: Purpose, generated: string, works: nat -> bool) returns (key: Key, ok: bool)
      requires Valid() && !purpose.MTLS?
      modifies this`keys, this`nextKey, this`signers
      ensures Valid() && Forward(old(keys), keys, {})
      ensures ok ==> external.None? && key in keys && key !in old(keys)
                     && keys[key].state.Active? && keys[key].purpose == purpose
      ensures forall k :: k in old(keys) ==> keys[k] == old(keys)[k]
      ensures ok ==> keys.Keys == old(keys).Keys + {key}
      ensures external.Some? ==> !ok && keys == old(keys)
      ensures forall p :: p in signers ==> p in old(signers) && signers[p] == old(signers)[p]
      ensures keys == old(keys)
              || (key !in old(keys) && keys == old(keys)[key := Row(purpose, generated, true, Active)])
    {
      key := 0;
      if external.Some? || !works(0) {
        return key, false;
      }
      key, ok := InsertKey(purpose, generated, true);
      if !ok || !works(1) {
        return key, false;
      }
      InvalidateSigner(purpose);
    }

    /**
     Bootstrap of managed mode: afterwards both SSH purposes have a key that is not retired. An active one,
     which signing needs, is there only if there was one before or no key of the purpose at all.
     */
    method EnsureCAKeys(generated: Purpose -> string, works: (Purpose, nat) -> bool) returns (ok: bool)
      requires Valid()
      modifies this`keys, this`nextKey, this`signers
      ensures Valid() && Forward(old(keys), keys, {})
      ensures external.Some? ==> !ok && keys == old(keys)
      ensures forall k :: k in old(keys) ==> keys[k] == old(keys)[k]
      ensures forall p :: p in signers ==> p in old(signers) && signers[p] == old(signers)[p]
      ensures ok ==> forall p: Purpose :: !p.MTLS? ==> Bootstrapped(old(keys), keys, p)
    {
      if external.Some? {
        return false;
      }
      var purposes := [User, Host];
      for n := 0 to 2
        invariant Valid() && Forward(old(keys), keys, {})
        invariant forall k :: k in old(keys) ==> keys[k] == old(keys)[k]
        invariant forall p :: p in signers ==> p in old(signers) && signers[p] == old(signers)[p]
        invariant n < 2 ==> forall k :: k in keys && keys[k].purpose == Host ==> k in old(keys)
        invariant n == 0 ==> keys == old(keys)
        invariant n > 0 ==> Bootstrapped(old(keys), keys, User)
        invariant n > 1 ==> Bootstrapped(old(keys), keys, Host)
      {
        var p := purposes[n];
        ghost var before := keys;
        ok := EnsureCAKey(p, generated(p), (k: nat) => works(p, k));
        ForwardTransitive(old(keys), before, keys, {});
        if !ok { return; }
        if n == 1 {
          SamePurposeKeys(old(keys), before, Host);
          SamePurposeKeys(before, keys, User);
        }
      }
      forall p: Purpose | !p.MTLS?
        ensures Bootstrapped(old(keys), keys, p)
      {
        assert p == User || p == Host;
      }
      return true;
    }

    /** One round of its loop. */
    method EnsureCAKey(purpose: Purpose, generated: string, works: nat -> bool) returns (ok: bool)
      requires Valid() && !purpose.MTLS? && external.None?
      modifies this`keys, this`nextKey, this`signers
      ensures Valid() && Forward(old(keys), keys, {})
      ensures forall k :: k in old(keys) ==> keys[k] == old(keys)[k]
      ensures forall k :: k in keys && keys[k].purpose != purpose ==> k in old(keys)
      ensures forall p :: p in signers ==> p in old(signers) && signers[p] == old(signers)[p]
      ensures ok ==> Bootstrapped(old(keys), keys, purpose)
    {
      ListedExactly(keys, purpose, nextKey);
      if ListActive(keys, purpose, nextKey) != [] {
        return true;
      }
      var key;
      key, ok := CreateKey(purpose, generated, works);
      assert ok ==> IsActive(keys, key, purpose) && InBundle(keys, key, purpose);
    }

    /** Creates a new active key and moves the previously active ones to retiring. */
    method Rotate(purpose: Purpose, generated: string, works: nat -> bool) returns (key: Key, ok: bool)
      requires Valid() && !purpose.MTLS?
      modifies this`keys, this`nextKey, this`signers
      ensures Valid() && Forward(old(keys), keys, {})
      ensures external.Some? ==> !ok && keys == old(keys)
      ensures OnlyDemotes(old(keys), keys, purpose)
      ensures ok ==> key !in old(keys) && keys.Keys == old(keys).Keys + {key}
      ensures ok ==> IsActive(keys, key, purpose) && forall k :: IsActive(keys, k, purpose) ==> k == key
      ensures ok ==> purpose !in signers
    {
      key := 0;
      if external.Some? {
        return key, false;
      }
      var previous := ListActive(keys, purpose, nextKey);
      key, ok := CreateKey(purpose, generated, works);
      if !ok { return; }
      ghost var created := keys;
      RotateCovers(old(keys), created, old(nextKey), key, purpose);
      var after, n := DemoteAll(keys, previous, works);
      RotatedConsistent(created, previous, n, key, purpose, nextKey, signers, issued, passed);
      DemotedFirstOnly(old(keys), created, previous, n, key, purpose, old(nextKey));
      ForwardTransitive(old(keys), created, after, {});
      keys := after;
      if n < |previous| {
        return key, false;
      }
      assert previous[..n] == previous;
      InvalidateSigner(purpose);
    }

    /** Retires a key for good; the audit entry may fail after the state was written. */
    method RetireKey(key: Key, works: nat -> bool) returns (ok: bool)
      requires Valid()
      modifies this`keys, this`signers, this`passed
      ensures Valid() && passed == old(passed) + {key} && Forward(old(keys), keys, {key})
      ensures keys == old(keys) || (key in old(keys) && keys == WithState(old(keys), key, Retired))
      ensures ok ==> key in keys && keys[key].state.Retired?
      ensures ok && external.None? ==> keys[key].purpose !in signers
      ensures forall p :: p in signers ==> p in old(signers) && signers[p] == old(signers)[p]
    {
      StatesKeepConsistent(keys, keys, nextKey, signers, issued, passed, passed + {key});
      passed := passed + {key};
      if key !in keys || !works(0) {
        return false;
      }
      OneStateForward(keys, key, Retired, {key});
      StatesKeepConsistent(keys, WithState(keys, key, Retired), nextKey, signers, issued, passed, passed);
      keys := WithState(keys, key, Retired);
      if !works(1) {
        return false;
      }
      InvalidateSigner(keys[key].purpose);
      return true;
    }

    /** Adopting a known key changes nothing, a retired one is refused; a new one supersedes the active ones. */
    method AdoptCAKey(purpose: Purpose, publicKey: string, works: bool) returns (key: Key, created: bool, ok: bool)
      requires Valid()
      modifies this`keys, this`nextKey
      ensures Valid() && Forward(old(keys), keys, {})
      ensures !ok || !created ==> keys == old(keys)
      ensures OnlyDemotes(old(keys), keys, purpose)
      ensures ok && created ==> keys.Keys == old(keys).Keys + {key}
      ensures ok ==> key in keys && keys[key].purpose == purpose && keys[key].publicKey == publicKey
                     && !keys[key].state.Retired?
      ensures ok && created ==> key !in old(keys) && !keys[key].hasPrivateKey
      ensures ok && created ==>
                forall k :: k in keys && keys[k].purpose == purpose && keys[k].state.Active? ==> k == key
    {
      key, created := 0, false;
      if !works {
        return key, created, false;
      }
      ghost var before := keys;
      key, created := InsertKey(purpose, publicKey, false);
      if !created {
        key :| key in keys.Keys && keys[key].purpose == purpose && keys[key].publicKey == publicKey;
        return key, false, !keys[key].state.Retired?;
      }
      SupersededForward(keys, purpose, key);
      ForwardTransitive(before, keys, Superseded(keys, purpose, key), {});
      StatesKeepConsistent(keys, Superseded(keys, purpose, key), nextKey, signers, issued, passed, passed);
      keys := Superseded(keys, purpose, key);
      ok := true;
    }

    /** Startup of self-managed mode: registers the mounted keys and builds their signers. */
    method AdoptExternalKeys(works: (Purpose, nat) -> bool) returns (ok: bool)
      requires Valid()
      modifies this`keys, this`nextKey, this`signers
      ensures Valid() && Forward(old(keys), keys, {})
      ensures ok ==> external.Some? && User in signers && Host in signers
      ensures DemotesAtMost(old(keys), keys)
      ensures ok ==> keys[signers[User]].publicKey == external.value.user
                     && keys[signers[Host]].publicKey == external.value.host
    {
      if external.None? {
        return false;
      }
      var e := external.value;
      var adoptions := [(User, e.user), (Host, e.host), (MTLS, e.mtls)];
      for n := 0 to 3
        invariant Valid() && Forward(old(keys), keys, {})
        invariant DemotesAtMost(old(keys), keys)
        invariant n > 0 ==> User in signers && keys[signers[User]].publicKey == e.user
        invariant n > 1 ==> Host in signers && keys[signers[Host]].publicKey == e.host
      {
        var (purpose, publicKey) := adoptions[n];
        ghost var before := keys;
        var key, created, adopted := AdoptCAKey(purpose, publicKey, works(purpose, 0));
        DemotionsAddUp(old(keys), before, keys, purpose);
        if !adopted { return false; }
        if !purpose.MTLS? {
          signers := signers[purpose := key];
        }
        if created && !works(purpose, 1) { return false; }
      }
      return true;
    }

    /** The cached signer, or in managed mode the newest active key. */
    method ActiveSigner(purpose: Purpose, works: nat -> bool) returns (key: Key, ok: bool)
      requires Valid()
      modifies this`signers
      ensures Valid()
      ensures ok <==> CanSign(keys, old(signers), external, purpose, works(0))
      ensures ok ==> purpose in signers && key == signers[purpose]
      ensures purpose in old(signers) ==> ok && signers == old(signers)
      ensures ok && purpose !in old(signers) ==>
                external.None? && keys[key].state.Active? && keys[key].hasPrivateKey
                && forall k :: k in keys && keys[k].purpose == purpose && keys[k].state.Active? ==> k <= key
    {
      key := 0;
      if purpose in signers {
        return signers[purpose], true;
      }
      if external.Some? || !works(0) {
        return key, false;
      }
      var first := FirstActive(keys, ListActive(keys, purpose, nextKey));
      NewestIsFirst(keys, purpose, nextKey, first);
      if first.None? || !keys[first.value].hasPrivateKey {
        return key, false;
      }
      key := first.value;
      signers := signers[purpose := key];
      return key, true;
    }

    /** Signs a request that passed the policy; `certType` selects the purpose of the key. */
    method Issue(certType: Purpose, works: nat -> bool) returns (key: Key, ok: bool)
      requires Valid() && !certType.MTLS?
      modifies this`signers, this`issued
      ensures Valid()
      ensures ok <==> CanSign(keys, old(signers), external, certType, works(0)) && works(1) && works(2)
      ensures issued == if ok then old(issued) + [Issuance(certType, key)] else old(issued)
      ensures ok ==> Sound(keys, Issuance(certType, key), passed)
    {
      key, ok := ActiveSigner(certType, works);
      if !ok { return; }
      if !works(1) || !works(2) {
        return key, false;
      }
      issued := issued + [Issuance(certType, key)];
    }

    /** The public keys of all non-retired keys of an SSH purpose, newest first. */
    method Bundle(purpose: Purpose) returns (lines: seq<string>, ok: bool)
      requires Valid()
      ensures ok <==> !purpose.MTLS?
      ensures ok ==> lines == PublicKeys(keys, ListActive(keys, purpose, nextKey))
    {
      lines := [];
      if purpose.MTLS? {
        return lines, false;
      }
      var listed := ListActive(keys, purpose, nextKey);
      for i := 0 to |listed|
        invariant |lines| == i && forall j :: 0 <= j < i ==> lines[j] == keys[listed[j]].publicKey
      {
        assert listed[i] in listed;
        lines := lines + [keys[listed[i]].publicKey];
      }
      return lines, true;
    }
  }

  /**
   A successful bootstrap does not mean that certificates can be issued: after a rotation whose new key is
   retired again the older keys are only retiring, so none is created and none is active.
   */
  method RetiredSuccessor(
    ca: CA, purpose: Purpose, newPublicKey: string, generated: Purpose -> string,
    rotates: nat -> bool, retires: nat -> bool, boots: (Purpose, nat) -> bool, issues: nat -> bool)
    returns (booted: bool, issued: bool)
    requires ca.Valid() && ca.external.None? && !purpose.MTLS? && HasListed(ca.keys, purpose)
    modifies ca
    ensures booted ==> !issued
  {
    booted, issued := false, false;
    ghost var before := ca.keys;
    var key, ok := ca.Rotate(purpose, newPublicKey, rotates);
    if !ok { return; }
    ghost var rotated := ca.keys;
    ok := ca.RetireKey(key, retires);
    if !ok { return; }
    OnlyRetiringLeft(before, rotated, ca.keys, key, purpose);
    booted := ca.EnsureCAKeys(generated, boots);
    if !booted { return; }
    assert Bootstrapped(WithState(rotated, key, Retired), ca.keys, purpose);
    var _, done := ca.Issue(purpose, issues);
    issued := done;
  }

  lemma OnlyRetiringLeft(before: Keys, rotated: Keys, after: Keys, key: Key, purpose: Purpose)
    requires HasListed(before, purpose) && OnlyDemotes(before, rotated, purpose) && key !in before
    requires IsActive(rotated, key, purpose) && forall k :: IsActive(rotated, k, purpose) ==> k == key
    requires key in after && after[key].state.Retired?
    requires after == rotated || after == WithState(rotated, key, Retired)
    ensures after == WithState(rotated, key, Retired) && HasListed(after, purpose) && !HasActive(after, purpose)
  {
    var k :| InBundle(before, k, purpose);
    assert InBundle(after, k, purpose);
    forall l
      ensures !IsActive(after, l, purpose)
    {
      assert IsActive(rotated, l, purpose) ==> l == key;
    }
  }

  /** A key is distributed exactly when it is in the bundle's list. */
  lemma BundleExactly(keys: Keys, purpose: Purpose, n: Key, k: Key)
    requires forall l :: l in keys ==> l < n
    ensures k in ListActive(keys, purpose, n) <==> InBundle(keys, k, purpose)
    ensures InBundle(keys, k, purpose) ==> keys[k].publicKey in PublicKeys(keys, ListActive(keys, purpose, n))
  {
    var listed := ListActive(keys, purpose, n);
    if k in listed {
      var i :| 0 <= i < |listed| && listed[i] == k;
      assert PublicKeys(keys, listed)[i] == keys[k].publicKey;
    }
  }

  /* ---------------------------------------------------------------- whole runs */

  type SshPurpose = p: Purpose | !p.MTLS? witness User

  /** One call, with its inputs, or a restart in either mode. */
  datatype Operation =
    | DoEnsureCAKeys(generated: Purpose -> string, worksFor: (Purpose, nat) -> bool)
    | DoAdoptExternalKeys(worksFor: (Purpose, nat) -> bool)
    | DoRotate(purpose: SshPurpose, newPublicKey: string, works: nat -> bool)
    | DoRetireKey(key: Key, works: nat -> bool)
    | DoIssue(certType: SshPurpose, works: nat -> bool)
    | DoRestart(external: Option<External>)

  /** What a run shows: the key table, the certificates issued and the keys passed to RetireKey so far. */
  datatype View = View(keys: Keys, issued: seq<Issuance>, passed: set<Key>)

  function RetiredBy(op: Operation): set<Key> {
    if op.DoRetireKey? then {op.key} else {}
  }

  /** The keys passed to RetireKey in a stretch of a run. */
  function RetiredIn(ops: seq<Operation>): set<Key> {
    if ops == [] then {} else RetiredIn(ops[..|ops| - 1]) + RetiredBy(ops[|ops| - 1])
  }

  /** What one operation may do: only RetireKey retires, only Issue issues. */
  ghost predicate Effect(v: View, v': View, op: Operation) {
    && v'.passed == v.passed + RetiredBy(op)
    && Forward(v.keys, v'.keys, RetiredBy(op))
    && (v'.issued == v.issued
        || (op.DoIssue? && exists k :: v'.issued == v.issued + [Issuance(op.certType, k)]
                                       && Sound(v'.keys, Issuance(op.certType, k), v'.passed)))
  }

  ghost predicate StepAt(views: seq<View>, ops: seq<Operation>, i: nat)
    requires |views| == |ops| + 1 && i < |ops|
  {
    Effect(views[i], views[i + 1], ops[i])
  }

  /** A run of a new installation, or of one whose key table came from elsewhere. */
  ghost predicate IsRun(views: seq<View>, ops: seq<Operation>) {
    && |views| == |ops| + 1 && views[0].issued == [] && views[0].passed == {}
    && forall i :: 0 <= i < |ops| ==> StepAt(views, ops, i)
  }

  lemma RunExtends(views: seq<View>, ops: seq<Operation>, v: View, op: Operation)
    requires IsRun(views, ops) && Effect(views[|ops|], v, op)
    ensures IsRun(views + [v], ops + [op])
  {
    var views', ops' := views + [v], ops + [op];
    forall i | 0 <= i < |ops'|
      ensures StepAt(views', ops', i)
    {
      if i < |ops| {
        assert StepAt(views, ops, i);
      }
    }
  }

  /** Performs one operation; a restart leaves a new process on the same store. */
  method Perform(ca: CA, op: Operation) returns (ca': CA)
    requires ca.Valid()
    modifies ca
    ensures ca'.Valid() && (ca' == ca || fresh(ca')) && Effect(old(ca.ToView()), ca'.ToView(), op)
  {
    ca' := ca;
    assert ca.passed == ca.passed + {};
    match op
    case DoEnsureCAKeys(generated, works) => var _ := ca.EnsureCAKeys(generated, works);
    case DoAdoptExternalKeys(works) => var _ := ca.AdoptExternalKeys(works);
    case DoRotate(purpose, generated, works) => var _, _ := ca.Rotate(purpose, generated, works);
    case DoRetireKey(key, works) => var _ := ca.RetireKey(key, works);
    case DoIssue(certType, works) => var _, _ := ca.Issue(certType, works);
    case DoRestart(external) => ca' := new CA(external, ca.keys, ca.nextKey, ca.issued, ca.passed);
  }

  /** Any sequence of operations, on any key table, is a run. */
  method Execute(external: Option<External>, keys: Keys, nextKey: Key, ops: seq<Operation>)
    returns (ca: CA, ghost views: seq<View>)
    requires (forall k :: k in keys ==> k < nextKey) && Unique(keys)
    ensures fresh(ca) && ca.Valid()
    ensures IsRun(views, ops) && views[0].keys == keys && views[|ops|] == ca.ToView()
  {
    ca := new CA(external, keys, nextKey, [], {});
    views := [ca.ToView()];
    for n := 0 to |ops|
      invariant fresh(ca) && ca.Valid()
      invariant IsRun(views, ops[..n]) && views[0].keys == keys && views[n] == ca.ToView()
    {
      assert ops[..n + 1] == ops[..n] + [ops[n]];
      ca := Perform(ca, ops[n]);
      RunExtends(views, ops[..n], ca.ToView(), ops[n]);
      views := views + [ca.ToView()];
    }
    assert ops[..|ops|] == ops;
  }

  /** What a stretch of a run may do in which `retired` are the keys passed to RetireKey. */
  ghost predicate Evolved(v: View, v': View, retired: set<Key>) {
    Forward(v.keys, v'.keys, retired) && v'.passed == v.passed + retired && v.issued <= v'.issued
  }

  lemma OneMoreOperation(v: View, w: View, x: View, retired: set<Key>, op: Operation)
    requires Evolved(v, w, retired) && Effect(w, x, op)
    ensures Evolved(v, x, retired + RetiredBy(op))
  {
    assert v.passed + retired + RetiredBy(op) == v.passed + (retired + RetiredBy(op));
  }

  lemma SoundKept(keys: Keys, keys': Keys, i: Issuance, passed: set<Key>, retired: set<Key>)
    requires Sound(keys, i, passed) && Forward(keys, keys', retired)
    ensures Sound(keys', i, passed + retired)
  {
  }

  lemma RetiredInOneMore(ops: seq<Operation>, n: nat, m: nat)
    requires n < m <= |ops|
    ensures RetiredIn(ops[n..m]) == RetiredIn(ops[n..m - 1]) + RetiredBy(ops[m - 1])
  {
    assert ops[n..m][..m - n - 1] == ops[n..m - 1];
  }

  /** Over any stretch of a run states only move forward, and only keys passed to RetireKey in it get retired. */
  lemma {:induction false} RunsMoveForward(views: seq<View>, ops: seq<Operation>, n: nat, m: nat)
    requires IsRun(views, ops) && n <= m < |views|
    ensures Evolved(views[n], views[m], RetiredIn(ops[n..m]))
    decreases m - n
  {
    if n < m {
      RunsMoveForward(views, ops, n, m - 1);
      RetiredInOneMore(ops, n, m);
      assert StepAt(views, ops, m - 1);
      OneMoreOperation(views[n], views[m - 1], views[m], RetiredIn(ops[n..m - 1]), ops[m - 1]);
    } else {
      assert ops[n..m] == [];
    }
  }

  /** Every certificate of a run is sound at every moment from its issue on. */
  lemma {:induction false} RunKeepsSound(views: seq<View>, ops: seq<Operation>, m: nat, i: nat)
    requires IsRun(views, ops) && m < |views| && i < |views[m].issued|
    ensures Sound(views[m].keys, views[m].issued[i], views[m].passed)
  {
    assert m > 0;
    var v, v', op := views[m - 1], views[m], ops[m - 1];
    assert StepAt(views, ops, m - 1);
    if i < |v.issued| {
      RunKeepsSound(views, ops, m - 1, i);
      assert v'.issued[i] == v.issued[i];
      SoundKept(v.keys, v'.keys, v.issued[i], v.passed, RetiredBy(op));
    }
  }

  /**
   Main result: a certificate issued up to moment n has a key of its own type, and at every later moment
   m that key is in the bundle, unless that very key was passed to RetireKey by then.
   */
  lemma IssuedStaysVerifiable(views: seq<View>, ops: seq<Operation>, n: nat, m: nat, i: nat)
    requires IsRun(views, ops) && n <= m < |views| && i < |views[n].issued|
    ensures
      var cert := views[n].issued[i];
      && cert.key in views[m].keys && views[m].keys[cert.key].purpose == cert.certType
      && (cert.key !in RetiredIn(ops[..m]) ==> InBundle(views[m].keys, cert.key, cert.certType))
  {
    RunsMoveForward(views, ops, n, m);
    RunsMoveForward(views, ops, 0, m);
    assert ops[0..m] == ops[..m];
    assert views[m].issued[i] == views[n].issued[i];
    RunKeepsSound(views, ops, m, i);
  }
}
