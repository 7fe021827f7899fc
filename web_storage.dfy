/**
 * The browser's `localStorage` as the front end's composables use it: a map
 * from keys to stored values, together with the order in which
 * `localStorage.key(i)` enumerates the keys.  A value written under a new key
 * is enumerated last, and removing a key moves every later key one index
 * down.
 */
module WebStorage {
  import opened Common

  /** No key is listed twice. */
  predicate Distinct<T(==)>(s: seq<T>)
  {
    forall i, j :: 0 <= i < j < |s| ==> s[i] != s[j]
  }

  /** The keys of `keys` that are not in `removed`, in their order. */
  function Without(keys: seq<string>, removed: seq<string>): (r: seq<string>)
    ensures |r| <= |keys|
  {
    if |keys| == 0 then []
    else Without(keys[..|keys| - 1], removed) + (if keys[|keys| - 1] in removed then [] else [keys[|keys| - 1]])
  }

  /** The keys of `keys` that start with `prefix`, in their order. */
  function Prefixed(keys: seq<string>, prefix: string): (r: seq<string>)
    ensures |r| <= |keys|
  {
    if |keys| == 0 then []
    else Prefixed(keys[..|keys| - 1], prefix) + (if StartsWith(keys[|keys| - 1], prefix) then [keys[|keys| - 1]] else [])
  }

  /** The keys of `keys` that do not start with `prefix`, in their order. */
  function Unprefixed(keys: seq<string>, prefix: string): (r: seq<string>)
    ensures |r| <= |keys|
  {
    if |keys| == 0 then []
    else Unprefixed(keys[..|keys| - 1], prefix) + (if StartsWith(keys[|keys| - 1], prefix) then [] else [keys[|keys| - 1]])
  }

  lemma {:induction false} WithoutMembers(keys: seq<string>, removed: seq<string>)
    ensures forall k :: k in Without(keys, removed) <==> k in keys && k !in removed
  {
    if |keys| > 0 {
      WithoutMembers(keys[..|keys| - 1], removed);
      assert keys == keys[..|keys| - 1] + [keys[|keys| - 1]];
    }
  }

  lemma {:induction false} PrefixedMembers(keys: seq<string>, prefix: string)
    ensures forall k :: k in Prefixed(keys, prefix) <==> k in keys && StartsWith(k, prefix)
  {
    if |keys| > 0 {
      PrefixedMembers(keys[..|keys| - 1], prefix);
      assert keys == keys[..|keys| - 1] + [keys[|keys| - 1]];
    }
  }

  lemma {:induction false} UnprefixedMembers(keys: seq<string>, prefix: string)
    ensures forall k :: k in Unprefixed(keys, prefix) <==> k in keys && !StartsWith(k, prefix)
  {
    if |keys| > 0 {
      UnprefixedMembers(keys[..|keys| - 1], prefix);
      assert keys == keys[..|keys| - 1] + [keys[|keys| - 1]];
    }
  }

  lemma {:induction false} WithoutDistinct(keys: seq<string>, removed: seq<string>)
    requires Distinct(keys)
    ensures Distinct(Without(keys, removed))
  {
    if |keys| > 0 {
      var init := keys[..|keys| - 1];
      WithoutDistinct(init, removed);
      WithoutMembers(init, removed);
      assert keys[|keys| - 1] !in init;
    }
  }

  lemma {:induction false} WithoutAppend(a: seq<string>, b: seq<string>, removed: seq<string>)
    ensures Without(a + b, removed) == Without(a, removed) + Without(b, removed)
    decreases |b|
  {
    if |b| == 0 {
      assert a + b == a;
    } else {
      var b' := b[..|b| - 1];
      assert (a + b)[..|a + b| - 1] == a + b';
      assert (a + b)[|a + b| - 1] == b[|b| - 1];
      WithoutAppend(a, b', removed);
    }
  }

  /** Nothing of `keys` is in `removed`: no key is dropped. */
  lemma {:induction false} WithoutNone(keys: seq<string>, removed: seq<string>)
    requires forall k :: 0 <= k < |keys| ==> keys[k] !in removed
    ensures Without(keys, removed) == keys
  {
    if |keys| > 0 {
      WithoutNone(keys[..|keys| - 1], removed);
      assert keys == keys[..|keys| - 1] + [keys[|keys| - 1]];
    }
  }

  /** Removing the key at index `i` of a list without repeats closes the gap. */
  lemma {:induction false} RemoveAt(keys: seq<string>, i: nat)
    requires Distinct(keys) && i < |keys|
    ensures Without(keys, [keys[i]]) == keys[..i] + keys[i + 1..]
  {
    var key := keys[i];
    var init := keys[..|keys| - 1];
    if i == |keys| - 1 {
      forall k | 0 <= k < |init|
        ensures init[k] !in [key]
      {
        assert init[k] == keys[k];
      }
      WithoutNone(init, [key]);
    } else {
      assert init[i] == key;
      assert keys[|keys| - 1] != key;
      RemoveAt(init, i);
      assert init[..i] == keys[..i];
      assert init[i + 1..] + [keys[|keys| - 1]] == keys[i + 1..];
    }
  }

  /** One more removal extends the list of removed keys. */
  lemma {:induction false} RemoveOneMore(s: seq<string>, removed: seq<string>, key: string)
    ensures Without(Without(s, removed), [key]) == Without(s, removed + [key])
  {
    if |s| > 0 {
      var init := s[..|s| - 1];
      RemoveOneMore(init, removed, key);
      var x := s[|s| - 1];
      var part := if x in removed then [] else [x];
      WithoutAppend(Without(init, removed), part, [key]);
      if part != [] {
        assert part[..0] == [];
      }
    }
  }

  /** Removing the collected prefixed keys leaves the keys without the prefix. */
  lemma {:induction false} WithoutPrefixed(keys: seq<string>, removed: seq<string>, prefix: string)
    requires forall k :: 0 <= k < |keys| ==> (keys[k] in removed <==> StartsWith(keys[k], prefix))
    ensures Without(keys, removed) == Unprefixed(keys, prefix)
  {
    if |keys| > 0 {
      WithoutPrefixed(keys[..|keys| - 1], removed, prefix);
    }
  }

  class Storage<V> {
    /** The keys in the order `localStorage.key(i)` enumerates them. */
    var keys: seq<string>
    var items: map<string, V>

    ghost predicate Valid()
      reads this
    {
      Distinct(keys) && forall k :: k in items <==> k in keys
    }

    constructor ()
      ensures Valid() && keys == [] && items == map[]
    {
      keys, items := [], map[];
    }

    /** `localStorage.getItem`. */
    function GetItem(key: string): Option<V>
      reads this
    {
      if key in items then Some(items[key]) else None
    }

    /** `localStorage.setItem`: a new key is enumerated last. */
    method SetItem(key: string, value: V)
      requires Valid()
      modifies this
      ensures Valid()
      ensures items == old(items)[key := value]
      ensures keys == if key in old(items) then old(keys) else old(keys) + [key]
    {
      if key !in items {
        keys := keys + [key];
      }
      items := items[key := value];
    }

    /** `localStorage.removeItem`: later keys move one index down. */
    method RemoveItem(key: string)
      requires Valid()
      modifies this
      ensures Valid()
      ensures items == old(items) - {key}
      ensures keys == Without(old(keys), [key])
    {
      WithoutMembers(keys, [key]);
      WithoutDistinct(keys, [key]);
      keys := Without(keys, [key]);
      items := items - {key};
    }
  }

  /**
   * The keys left by a loop that walks the keys by index and removes each key
   * with `prefix` as soon as it meets it: the key after a removed one slides
   * into the index just visited, and the loop moves past it.
   */
  function AfterIndexedRemoval(keys: seq<string>, prefix: string, i: nat): (r: seq<string>)
    ensures |r| <= |keys|
    ensures forall k :: k in r ==> k in keys
    ensures forall k :: k in keys && !StartsWith(k, prefix) ==> k in r
    decreases |keys| - i
  {
    if i >= |keys| then keys
    else if StartsWith(keys[i], prefix) then
      var rest := keys[..i] + keys[i + 1..];
      assert forall k :: k in rest ==> k in keys;
      assert forall k :: k in keys && k != keys[i] ==> k in rest by {
        forall k | k in keys && k != keys[i] ensures k in rest {
          var j :| 0 <= j < |keys| && keys[j] == k;
          if j < i { assert rest[j] == k; } else { assert rest[j - 1] == k; }
        }
      }
      AfterIndexedRemoval(rest, prefix, i + 1)
    else AfterIndexedRemoval(keys, prefix, i + 1)
  }

  /**
   * The user-switch clean-up of the quiz and reading-report composables, as
   * written: remove every key with `prefix` while walking `localStorage.key(i)`.
   * What is left is the old entries of the keys the walk did not remove.
   */
  method RemovePrefixedAsWritten<V>(store: Storage<V>, prefix: string)
    requires store.Valid()
    modifies store
    ensures store.Valid()
    ensures store.keys == AfterIndexedRemoval(old(store.keys), prefix, 0)
    ensures store.items == map k | k in old(store.items) && k in store.keys :: old(store.items)[k]
  {
    var i: nat := 0;
    while i < |store.keys|
      invariant store.Valid()
      invariant AfterIndexedRemoval(store.keys, prefix, i) == AfterIndexedRemoval(old(store.keys), prefix, 0)
      invariant forall k | k in store.items :: k in old(store.items) && store.items[k] == old(store.items)[k]
    {
      var key := store.keys[i];
      if StartsWith(key, prefix) {
        RemoveAt(store.keys, i);
        store.RemoveItem(key);
      }
      i := i + 1;
    }
  }

  /**
   * What the `init` of the quiz and reading-report composables leaves:
   * `record`, the signed-in user's name, is stored under `authKey`, and when
   * it differs from the one stored there every key with `prefix` is removed
   * first (after all of them are collected). An empty name changes nothing.
   */
  function AfterSignIn<T(==)>(items: map<string, T>, authKey: string, prefix: string, fullname: string, record: T)
    : (r: map<string, T>)
    ensures fullname == "" ==> r == items
    ensures fullname != "" ==> authKey in r && r[authKey] == record
    ensures forall k | k in r && k != authKey :: k in items && r[k] == items[k]
  {
    if fullname == "" then items
    else
      var cleared :=
        if authKey in items && items[authKey] == record then items
        else map k | k in items && !StartsWith(k, prefix) :: items[k];
      cleared[authKey := record]
  }

  /**
   * What `init` leaves as written: on a change of user only the keys its
   * index walk removes are gone (`AfterIndexedRemoval` over the keys in
   * storage order), so a prefixed key that follows a removed one stays.
   */
  function AfterSignInAsWritten<T(==)>(items: map<string, T>, keys: seq<string>, authKey: string, prefix: string, fullname: string, record: T)
    : (r: map<string, T>)
    ensures fullname == "" ==> r == items
    ensures fullname != "" ==> authKey in r && r[authKey] == record
    ensures forall k | k in r && k != authKey :: k in items && r[k] == items[k]
    ensures forall k | k in items && k in keys && !StartsWith(k, prefix) :: k in r
  {
    if fullname == "" then items
    else
      var cleared :=
        if authKey in items && items[authKey] == record then items
        else map k | k in items && k in AfterIndexedRemoval(keys, prefix, 0) :: items[k];
      cleared[authKey := record]
  }

  /** The removal loop skips a key that follows a removed one: "quiz-b" survives. */
  lemma IndexedRemovalSkipsKey()
    ensures AfterIndexedRemoval(["quiz-a", "quiz-b"], "quiz-", 0) == ["quiz-b"]
  {
    var keys := ["quiz-a", "quiz-b"];
    assert StartsWith(keys[0], "quiz-");
    assert keys[..0] + keys[1..] == ["quiz-b"];
  }

  /** The first loop of `clearAllReports` and `cleanupStaleQuizzes`: collect the keys with `prefix`, in order. */
  method KeysWithPrefix<V>(store: Storage<V>, prefix: string) returns (keysToRemove: seq<string>)
    ensures keysToRemove == Prefixed(store.keys, prefix)
  {
    keysToRemove := [];
    var i := 0;
    while i < |store.keys|
      invariant i <= |store.keys|
      invariant keysToRemove == Prefixed(store.keys[..i], prefix)
    {
      assert store.keys[..i + 1][..i] == store.keys[..i];
      var key := store.keys[i];
      if StartsWith(key, prefix) {
        keysToRemove := keysToRemove + [key];
      }
      i := i + 1;
    }
    assert store.keys[..i] == store.keys;
  }

  /** The entries of `items` whose keys are not in `removed`. */
  function WithoutKeys<V>(items: map<string, V>, removed: seq<string>): map<string, V>
  {
    map k | k in items && k !in removed :: items[k]
  }

  lemma WithoutKeysStep<V>(items: map<string, V>, removed: seq<string>, key: string)
    ensures WithoutKeys(items, removed) - {key} == WithoutKeys(items, removed + [key])
  {
  }

  /** `keysToRemove.forEach(key => localStorage.removeItem(key))`. */
  method RemoveKeys<V>(store: Storage<V>, keysToRemove: seq<string>)
    requires store.Valid()
    modifies store
    ensures store.Valid()
    ensures store.items == WithoutKeys(old(store.items), keysToRemove)
    ensures store.keys == Without(old(store.keys), keysToRemove)
  {
    var j := 0;
    WithoutNone(store.keys, []);
    assert keysToRemove[..0] == [];
    assert store.items == WithoutKeys(store.items, []);
    while j < |keysToRemove|
      invariant j <= |keysToRemove|
      invariant store.Valid()
      invariant store.items == WithoutKeys(old(store.items), keysToRemove[..j])
      invariant store.keys == Without(old(store.keys), keysToRemove[..j])
    {
      var key := keysToRemove[j];
      RemoveOneMore(old(store.keys), keysToRemove[..j], key);
      WithoutKeysStep(old(store.items), keysToRemove[..j], key);
      assert keysToRemove[..j + 1] == keysToRemove[..j] + [key];
      store.RemoveItem(key);
      j := j + 1;
    }
    assert keysToRemove[..j] == keysToRemove;
  }

  /**
   * Remove every key with `prefix` by collecting the keys first and removing
   * them afterwards, as `clearAllReports` does.
   */
  method RemovePrefixed<V>(store: Storage<V>, prefix: string)
    requires store.Valid()
    modifies store
    ensures store.Valid()
    ensures store.items == map k | k in old(store.items) && !StartsWith(k, prefix) :: old(store.items)[k]
    ensures store.keys == Unprefixed(old(store.keys), prefix)
  {
    var keysToRemove := KeysWithPrefix(store, prefix);
    PrefixedMembers(store.keys, prefix);
    WithoutPrefixed(store.keys, keysToRemove, prefix);
    RemoveKeys(store, keysToRemove);
  }

  /**
   * After the collect-then-remove clean-up no key with the prefix is left,
   * every other key stays, and the survivors keep their relative order.
   */
  lemma {:induction false} UnprefixedMeaning(keys: seq<string>, prefix: string)
    ensures forall k :: k in Unprefixed(keys, prefix) <==> k in keys && !StartsWith(k, prefix)
    ensures forall a, b :: a + b == keys ==> Unprefixed(keys, prefix) == Unprefixed(a, prefix) + Unprefixed(b, prefix)
  {
    UnprefixedMembers(keys, prefix);
    forall a, b | a + b == keys
      ensures Unprefixed(keys, prefix) == Unprefixed(a, prefix) + Unprefixed(b, prefix)
    {
      UnprefixedAppend(a, b, prefix);
    }
  }

  lemma {:induction false} UnprefixedAppend(a: seq<string>, b: seq<string>, prefix: string)
    ensures Unprefixed(a + b, prefix) == Unprefixed(a, prefix) + Unprefixed(b, prefix)
    decreases |b|
  {
    if |b| == 0 {
      assert a + b == a;
    } else {
      var b' := b[..|b| - 1];
      assert (a + b)[..|a + b| - 1] == a + b';
      assert (a + b)[|a + b| - 1] == b[|b| - 1];
      UnprefixedAppend(a, b', prefix);
    }
  }
}
