/** The response cache of `engine/cache.py`: a dictionary and the order its keys came in, bounded by
    dropping the oldest key. */
module Cache {
  import opened Text

  /** Persona and command. */
  type Key = (string, string)

  /** `_key`: the "semantic" cache folds the white space of the command. */
  function KeyOf(semantic: bool, persona: string, command: string): Key {
    (persona, if semantic then StripSpace(Join(Words(command), " ")) else command)
  }

  datatype Store = Store(values: map<Key, string>, order: seq<Key>)

  const EMPTY := Store(map[], [])

  function Evicted(c: Store): Store
    requires c.order != []
  {
    Store(c.values - {c.order[0]}, c.order[1..])
  }

  function Inserted(c: Store, key: Key, response: string): Store {
    Store(c.values[key := response], if key in c.values then c.order else c.order + [key])
  }

  /** `put`; none if it raises, which `pop(0)` does on an empty order list. */
  function Put(c: Store, maxsize: int, key: Key, response: string): Option<Store> {
    if key !in c.values && |c.values| >= maxsize then
      if c.order == [] then None else Some(Inserted(Evicted(c), key, response))
    else Some(Inserted(c, key, response))
  }

  ghost predicate NoDuplicates(keys: seq<Key>) {
    forall i, j | 0 <= i < j < |keys| :: keys[i] != keys[j]
  }

  /** The order list names exactly the keys of the dictionary, each once. */
  ghost predicate Consistent(c: Store) {
    NoDuplicates(c.order) && (forall k :: k in c.values <==> k in c.order)
  }

  ghost predicate IsStore(c: Store, maxsize: int) {
    Consistent(c) && (c.order == [] || |c.order| <= maxsize)
  }

  // Histories of puts

  type History = seq<(Key, string)>

  /** The cache after these puts, from empty. A put that raises leaves it as it is. */
  ghost function AfterPuts(puts: History, maxsize: int): Store
    ensures IsStore(AfterPuts(puts, maxsize), maxsize)
  {
    if puts == [] then EMPTY
    else
      var before := AfterPuts(puts[..|puts| - 1], maxsize);
      var (key, response) := puts[|puts| - 1];
      PutKeepsStore(before, maxsize, key, response);
      Put(before, maxsize, key, response).GetOr(before)
  }

  /** The puts of keys that were not in the cache at the time, oldest first. */
  ghost function NewKeys(puts: History, maxsize: int): seq<Key>
    requires maxsize >= 1
  {
    if puts == [] then []
    else
      var before := puts[..|puts| - 1];
      var key := puts[|puts| - 1].0;
      NewKeys(before, maxsize) + if key in AfterPuts(before, maxsize).values then [] else [key]
  }

  /** The last value put under `key`. */
  function Latest(puts: History, key: Key): Option<string> {
    if puts == [] then None
    else if puts[|puts| - 1].0 == key then Some(puts[|puts| - 1].1)
    else Latest(puts[..|puts| - 1], key)
  }

  function LastOf(keys: seq<Key>, n: nat): seq<Key> {
    if |keys| <= n then keys else keys[|keys| - n..]
  }

  lemma {:induction false} SizeOfOrder(values: map<Key, string>, order: seq<Key>)
    requires NoDuplicates(order) && forall k :: k in values <==> k in order
    ensures |values| == |order|
  {
    if order == [] {
      assert values == map[];
    } else {
      var rest := values - {order[0]};
      assert order == [order[0]] + order[1..];
      forall k ensures k in rest <==> k in order[1..] {}
      SizeOfOrder(rest, order[1..]);
      assert values.Keys == rest.Keys + {order[0]};
      assert |values.Keys| == |rest.Keys| + 1;
    }
  }

  lemma SizeOfStore(c: Store)
    requires Consistent(c)
    ensures |c.values| == |c.order| && (c.order == [] ==> c.values == map[])
    ensures c.order != [] ==> forall k | k in c.values && k != c.order[0] :: k in Evicted(c).values
    ensures forall k | k in c.values :: k in c.order
  {
    SizeOfOrder(c.values, c.order);
  }

  lemma EvictedIsConsistent(c: Store)
    requires Consistent(c) && c.order != []
    ensures Consistent(Evicted(c))
  {
    assert c.order == [c.order[0]] + c.order[1..];
  }

  lemma InsertedIsConsistent(c: Store, key: Key, response: string)
    requires Consistent(c)
    ensures Consistent(Inserted(c, key, response))
  {
  }

  function NextOrder(c: Store, maxsize: int, key: Key): seq<Key> {
    if key in c.values then c.order
    else if |c.order| >= maxsize && c.order != [] then c.order[1..] + [key]
    else c.order + [key]
  }

  lemma PutKeepsStore(c: Store, maxsize: int, key: Key, response: string)
    requires IsStore(c, maxsize)
    ensures var r := Put(c, maxsize, key, response);
      && (r.None? <==> maxsize <= 0)
      && (r.Some? ==> IsStore(r.value, maxsize) && key in r.value.values && r.value.values[key] == response)
      && (r.Some? ==> forall k | k in r.value.values && k != key :: k in c.values && r.value.values[k] == c.values[k])
      && (r.Some? ==> r.value.order == NextOrder(c, maxsize, key))
  {
    hide Consistent;
    SizeOfStore(c);
    if c.order != [] {
      EvictedIsConsistent(c);
      InsertedIsConsistent(Evicted(c), key, response);
    }
    InsertedIsConsistent(c, key, response);
  }

  lemma {:induction false} OrderIsLastNewKeys(puts: History, maxsize: int)
    requires maxsize >= 1
    ensures AfterPuts(puts, maxsize).order == LastOf(NewKeys(puts, maxsize), maxsize)
  {
    hide Consistent, Put;
    if puts != [] {
      var init := puts[..|puts| - 1];
      var (key, response) := puts[|puts| - 1];
      OrderIsLastNewKeys(init, maxsize);
      PutKeepsStore(AfterPuts(init, maxsize), maxsize, key, response);
      var news := NewKeys(init, maxsize);
      if |news| >= maxsize {
        assert LastOf(news + [key], maxsize) == LastOf(news, maxsize)[1..] + [key];
      }
      assert news + [] == news;
    }
  }

  lemma {:induction false} ValuesAreLatest(puts: History, maxsize: int)
    requires maxsize >= 1
    ensures var c := AfterPuts(puts, maxsize);
      forall k | k in c.values :: Latest(puts, k) == Some(c.values[k])
  {
    hide Consistent, Put;
    if puts != [] {
      var init := puts[..|puts| - 1];
      var (key, response) := puts[|puts| - 1];
      ValuesAreLatest(init, maxsize);
      PutKeepsStore(AfterPuts(init, maxsize), maxsize, key, response);
    }
  }

  /** Over every history of puts: the order list is exactly the last `maxsize` new keys, without
      repetition; it names the keys of the dictionary; and every value is the last one put there. So a
      key leaves only after `maxsize` later new keys. */
  lemma CacheIsLastWrites(puts: History, maxsize: int)
    requires maxsize >= 1
    ensures var c := AfterPuts(puts, maxsize);
      && c.order == LastOf(NewKeys(puts, maxsize), maxsize)
      && Consistent(c) && |c.values| == |c.order| <= maxsize
      && (forall k | k in c.values :: Latest(puts, k) == Some(c.values[k]))
  {
    hide AfterPuts, NewKeys;
    OrderIsLastNewKeys(puts, maxsize);
    ValuesAreLatest(puts, maxsize);
    SizeOfStore(AfterPuts(puts, maxsize));
  }

  lemma {:induction false} NewKeysGrow(puts: History, more: History, maxsize: int)
    requires maxsize >= 1
    ensures NewKeys(puts, maxsize) <= NewKeys(puts + more, maxsize)
  {
    if more == [] {
      assert puts + more == puts;
    } else {
      NewKeysGrow(puts, more[..|more| - 1], maxsize);
      assert (puts + more)[..|puts + more| - 1] == puts + more[..|more| - 1];
    }
  }

  /** A key that has just entered is still there until `maxsize` other keys have entered after it. */
  lemma FreshKeyStays(puts: History, more: History, maxsize: int, key: Key)
    requires maxsize >= 1
    ensures var before, all := NewKeys(puts, maxsize), NewKeys(puts + more, maxsize);
      before != [] && before[|before| - 1] == key && |all| < |before| + maxsize ==>
        key in AfterPuts(puts + more, maxsize).values
  {
    hide NewKeys, AfterPuts, LastOf, Latest, NoDuplicates;
    NewKeysGrow(puts, more, maxsize);
    CacheIsLastWrites(puts + more, maxsize);
    var before, all := NewKeys(puts, maxsize), NewKeys(puts + more, maxsize);
    if before != [] && before[|before| - 1] == key && |all| < |before| + maxsize {
      assert all[|before| - 1] == key;
      InLastOf(all, |before| - 1, maxsize);
      SizeOfStore(AfterPuts(puts + more, maxsize));
    }
  }

  lemma InLastOf(keys: seq<Key>, i: nat, n: nat)
    requires i < |keys| <= i + n
    ensures keys[i] in LastOf(keys, n)
  {
    var last := LastOf(keys, n);
    assert last[i - (|keys| - |last|)] == keys[i];
  }

  class ResponseCache {
    const enabled: bool
    const semantic: bool
    const maxsize: int
    var values: map<Key, string>
    var order: seq<Key>
    var hits: nat
    var misses: nat

    ghost predicate Valid()
      reads this
    {
      IsStore(Contents(), maxsize)
    }

    ghost function Contents(): Store
      reads this
    {
      Store(values, order)
    }

    constructor (enabled: bool, semantic: bool, maxsize: int)
      ensures Valid() && Contents() == EMPTY && hits == misses == 0
      ensures this.enabled == enabled && this.semantic == semantic && this.maxsize == maxsize
    {
      this.enabled, this.semantic, this.maxsize := enabled, semantic, maxsize;
      values, order, hits, misses := map[], [], 0, 0;
    }

    method Get(persona: string, command: string) returns (r: Option<string>)
      requires Valid()
      modifies this`hits, this`misses
      ensures Valid() && Contents() == old(Contents())
      ensures var key := KeyOf(semantic, persona, command);
        r == if enabled && key in values then Some(values[key]) else None
      ensures hits == old(hits) + (if r.Some? then 1 else 0)
      ensures misses == old(misses) + (if enabled && r.None? then 1 else 0)
    {
      if !enabled {
        return None;
      }
      var key := KeyOf(semantic, persona, command);
      r := if key in values then Some(values[key]) else None;
      if r.None? {
        misses := misses + 1;
      } else {
        hits := hits + 1;
      }
    }

    /** Raises, changing nothing, exactly when the cache is on and was given no room at all. */
    method Set(persona: string, command: string, response: string) returns (raised: bool)
      requires Valid()
      modifies this`values, this`order
      ensures Valid()
      ensures raised <==> enabled && maxsize <= 0
      ensures Contents() == if raised || !enabled then old(Contents())
        else Put(old(Contents()), maxsize, KeyOf(semantic, persona, command), response).value
    {
      if !enabled {
        return false;
      }
      var key := KeyOf(semantic, persona, command);
      PutKeepsStore(Contents(), maxsize, key, response);
      if key !in values && |values| >= maxsize {
        if order == [] {
          return true;
        }
        var oldest := order[0];
        order := order[1..];
        values := values - {oldest};
      }
      if key !in values {
        order := order + [key];
      }
      values := values[key := response];
      raised := false;
    }
  }

  // The folded key

  lemma {:induction false} WordsOfJoined(words: seq<string>)
    requires AreWords(words)
    ensures Words(Join(words, " ")) == words
    ensures words != [] ==> var j := Join(words, " "); j != "" && !IsSpace(j[0]) && !IsSpace(j[|j| - 1])
  {
    hide IsSpace, WordsFrom;
    if words != [] {
      var w, rest := words[0], words[1..];
      assert IsWord(w) && w[0] in w && w[|w| - 1] in w;
      WordsOfSpaced(w, Join(rest, " "), "");
      assert "" + w == w && words == [w] + rest;
      WordsOfJoined(rest);
    } else {
      WordsOfNothing();
    }
  }

  lemma WordsOfNothing()
    ensures Words("") == []
  {
  }

  /** Two commands share a folded key exactly when they are for one persona and consist of the same words; an
      exact key when they are the same command. */
  lemma KeysMatch(persona: string, a: string, persona': string, b: string)
    ensures KeyOf(true, persona, a) == KeyOf(true, persona', b) <==> persona == persona' && Words(a) == Words(b)
    ensures KeyOf(false, persona, a) == KeyOf(false, persona', b) <==> persona == persona' && a == b
  {
    FoldedKeyIsJoin(a);
    FoldedKeyIsJoin(b);
  }

  lemma FoldedKeyIsJoin(a: string)
    ensures StripSpace(Join(Words(a), " ")) == Join(Words(a), " ")
    ensures Words(Join(Words(a), " ")) == Words(a)
  {
    forall w | w in Words(a) ensures IsWord(w) {}
    WordsOfJoined(Words(a));
    StripIdentity(Join(Words(a), " "), IsSpace);
  }
}
