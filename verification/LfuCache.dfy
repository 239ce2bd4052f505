/**
 The LFU cache: values, use counts, one insertion-ordered group of keys per use count, and a
 `minFreq` hint that is allowed to lag behind after an invalidation.

 The ghost `trace` records what happened to the cache; use counts and recency are defined on it,
 independently of the cache's own bookkeeping, and eviction is proved optimal against them.
 */
module LfuCache {
  import opened Wrappers

  datatype Event<K> = Insert(key: K) | Use(key: K)

  /** How often `key` has been used since it was last inserted, the insertion included. */
  function Uses<K(==)>(trace: seq<Event<K>>, key: K): nat {
    if trace == [] then 0
    else
      var e, front := trace[|trace| - 1], trace[..|trace| - 1];
      if e.key != key then Uses(front, key) else if e.Insert? then 1 else 1 + Uses(front, key)
  }

  /** When `key` was last touched; -1 if never. */
  function LastTouch<K(==)>(trace: seq<Event<K>>, key: K): (i: int)
    ensures -1 <= i < |trace|
    ensures i >= 0 ==> trace[i].key == key
  {
    if trace == [] then -1
    else if trace[|trace| - 1].key == key then |trace| - 1
    else LastTouch(trace[..|trace| - 1], key)
  }

  /** The key to evict: fewest uses since insertion, and among those the one untouched for longest. */
  ghost predicate IsVictim<K>(keys: set<K>, trace: seq<Event<K>>, victim: K) {
    && victim in keys
    && forall k | k in keys && k != victim ::
         || Uses(trace, victim) < Uses(trace, k)
         || (Uses(trace, victim) == Uses(trace, k) && LastTouch(trace, victim) < LastTouch(trace, k))
  }

  lemma VictimCached<K>(keys: set<K>, trace: seq<Event<K>>, victim: K)
    requires IsVictim(keys, trace, victim)
    ensures victim in keys
  {}

  /** There is never a choice. */
  lemma VictimUnique<K>(keys: set<K>, trace: seq<Event<K>>, a: K, b: K)
    requires IsVictim(keys, trace, a) && IsVictim(keys, trace, b)
    ensures a == b
  {}

  /** One more event moves only its own key. */
  lemma Touched<K>(trace: seq<Event<K>>, e: Event<K>, key: K)
    ensures var trace' := trace + [e];
            && Uses(trace', key)
               == (if key != e.key then Uses(trace, key) else if e.Insert? then 1 else Uses(trace, key) + 1)
            && LastTouch(trace', key) == if key == e.key then |trace| else LastTouch(trace, key)
  {
    assert (trace + [e])[..|trace|] == trace;
  }

  /** `del group[key]` on an insertion-ordered group. */
  function Without<K(==, !new)>(group: seq<K>, key: K): (r: seq<K>)
    ensures forall k :: k in r <==> k in group && k != key
  {
    if group == [] then []
    else if group[0] == key then Without(group[1..], key)
    else [group[0]] + Without(group[1..], key)
  }

  /** Group members in the order they were last touched. */
  ghost predicate Chronological<K>(group: seq<K>, trace: seq<Event<K>>) {
    forall i, j | 0 <= i < j < |group| :: LastTouch(trace, group[i]) < LastTouch(trace, group[j])
  }

  lemma {:induction false} WithoutChronological<K(!new)>(group: seq<K>, key: K, trace: seq<Event<K>>)
    requires Chronological(group, trace)
    ensures Chronological(Without(group, key), trace)
    decreases |group|
  {
    if group != [] {
      var rest := Without(group[1..], key);
      WithoutChronological(group[1..], key, trace);
      forall j | 0 <= j < |rest| ensures LastTouch(trace, group[0]) < LastTouch(trace, rest[j]) {
        assert rest[j] in group[1..];
      }
    }
  }

  /** Touching a key that is not in a group does not disturb the group. */
  lemma OthersChronological<K>(group: seq<K>, trace: seq<Event<K>>, e: Event<K>)
    requires Chronological(group, trace) && e.key !in group
    ensures Chronological(group, trace + [e]) && Chronological(group + [e.key], trace + [e])
  {
    forall i | 0 <= i < |group| ensures LastTouch(trace + [e], group[i]) == LastTouch(trace, group[i]) {
      Touched(trace, e, group[i]);
    }
    Touched(trace, e, e.key);
  }

  type Groups<K> = map<nat, seq<K>>

  /** A `defaultdict` group: empty when missing. */
  function GroupOf<K>(groups: Groups<K>, f: nat): seq<K> {
    if f in groups then groups[f] else []
  }

  /** Frequencies are use counts; each key is in the group of its frequency and no other, groups oldest first. */
  ghost predicate GroupsOk<K(!new)>(freqs: map<K, nat>, groups: Groups<K>, trace: seq<Event<K>>) {
    && (forall k | k in freqs :: freqs[k] == Uses(trace, k) >= 1 && k in GroupOf(groups, freqs[k]))
    && (forall f, k | k in GroupOf(groups, f) :: k in freqs && freqs[k] == f)
    && (forall f :: Chronological(GroupOf(groups, f), trace))
  }

  function DropKey<K(==, !new)>(groups: Groups<K>, f: nat, key: K): (r: Groups<K>)
    ensures forall g :: GroupOf(r, g) == if g == f then Without(GroupOf(groups, f), key) else GroupOf(groups, g)
  {
    groups[f := Without(GroupOf(groups, f), key)]
  }

  function AddKey<K>(groups: Groups<K>, f: nat, key: K): (r: Groups<K>)
    ensures forall g :: GroupOf(r, g) == if g == f then GroupOf(groups, f) + [key] else GroupOf(groups, g)
  {
    groups[f := GroupOf(groups, f) + [key]]
  }

  lemma DropOk<K(!new)>(freqs: map<K, nat>, groups: Groups<K>, trace: seq<Event<K>>, key: K)
    requires GroupsOk(freqs, groups, trace) && key in freqs
    ensures GroupsOk(freqs - {key}, DropKey(groups, freqs[key], key), trace)
  {
    hide Chronological, Uses, LastTouch, Without, DropKey, GroupOf;
    WithoutChronological(GroupOf(groups, freqs[key]), key, trace);
  }

  lemma AddOk<K(!new)>(freqs: map<K, nat>, groups: Groups<K>, trace: seq<Event<K>>, e: Event<K>)
    requires GroupsOk(freqs, groups, trace) && e.key !in freqs
    ensures var f := Uses(trace + [e], e.key);
            GroupsOk(freqs[e.key := f], AddKey(groups, f, e.key), trace + [e])
  {
    hide Chronological, Uses, LastTouch, AddKey, GroupOf;
    var f := Uses(trace + [e], e.key);
    Touched(trace, e, e.key);
    forall g: nat
      ensures Chronological(GroupOf(AddKey(groups, f, e.key), g), trace + [e])
    {
      OthersChronological(GroupOf(groups, g), trace, e);
    }
    forall k | k != e.key ensures Uses(trace + [e], k) == Uses(trace, k) { Touched(trace, e, k); }
  }

  /** The front of a group is its oldest key; popping it is deleting that key. */
  lemma FrontIsOldest<K(!new)>(group: seq<K>, trace: seq<Event<K>>)
    requires Chronological(group, trace) && group != []
    ensures Without(group, group[0]) == group[1..]
    ensures forall k | k in group && k != group[0] :: LastTouch(trace, group[0]) < LastTouch(trace, k)
  {
    WithoutAbsent(group[1..], group[0], trace);
  }

  lemma {:induction false} WithoutAbsent<K(!new)>(group: seq<K>, key: K, trace: seq<Event<K>>)
    requires forall k | k in group :: LastTouch(trace, key) < LastTouch(trace, k)
    ensures Without(group, key) == group
    decreases |group|
  {
    if group != [] {
      assert group[0] in group;
      WithoutAbsent(group[1..], key, trace);
    }
  }

  lemma EmptyOk<K(!new)>(trace: seq<Event<K>>)
    ensures GroupsOk<K>(map[], map[], trace)
  {}

  lemma CountOf<K(!new)>(freqs: map<K, nat>, groups: Groups<K>, trace: seq<Event<K>>, key: K)
    requires GroupsOk(freqs, groups, trace) && key in freqs
    ensures freqs[key] == Uses(trace, key)
  {}

  /** A hit moves a key from its group to the end of the next. */
  lemma PromoteOk<K(!new)>(freqs: map<K, nat>, groups: Groups<K>, trace: seq<Event<K>>, key: K)
    requires GroupsOk(freqs, groups, trace) && key in freqs
    ensures var f := freqs[key];
            GroupsOk(freqs[key := f + 1], AddKey(DropKey(groups, f, key), f + 1, key), trace + [Use(key)])
  {
    hide GroupsOk, Uses, LastTouch, DropKey, AddKey, GroupOf;
    var f := freqs[key];
    CountOf(freqs, groups, trace, key);
    Touched(trace, Use(key), key);
    DropOk(freqs, groups, trace, key);
    AddOk(freqs - {key}, DropKey(groups, f, key), trace, Use(key));
    assert freqs[key := f + 1] == (freqs - {key})[key := f + 1];
  }

  /** The hint after a promotion is still a lower bound, and still exact if it was. */
  lemma PromotedHint<K(!new)>(freqs: map<K, nat>, groups: Groups<K>, trace: seq<Event<K>>, key: K, min: nat)
    requires GroupsOk(freqs, groups, trace) && key in freqs
    requires forall k | k in freqs :: min <= freqs[k]
    ensures var f := freqs[key];
            var dropped := DropKey(groups, f, key);
            var min' := if GroupOf(dropped, f) == [] && min == f then min + 1 else min;
            && (forall k | k in freqs && k != key :: min' <= freqs[k])
            && min' <= f + 1
            && (GroupOf(groups, min) != [] ==> GroupOf(AddKey(dropped, f + 1, key), min') != [])
  {
    hide Uses, LastTouch, Chronological;
    var f := freqs[key];
    forall k | k in freqs && k != key && freqs[k] == f ensures k in Without(GroupOf(groups, f), key) {}
  }

  /** A key entering the cache joins the group of one use; nothing has fewer. */
  lemma EnterOk<K(!new)>(freqs: map<K, nat>, groups: Groups<K>, trace: seq<Event<K>>, key: K)
    requires GroupsOk(freqs, groups, trace) && key !in freqs
    ensures GroupsOk(freqs[key := 1], AddKey(groups, 1, key), trace + [Insert(key)])
    ensures forall k | k in freqs :: freqs[k] >= 1
    ensures GroupOf(AddKey(groups, 1, key), 1) != []
  {
    hide LastTouch, Chronological, AddKey, GroupOf;
    Touched(trace, Insert(key), key);
    AddOk(freqs, groups, trace, Insert(key));
  }

  /** The front of the group the hint names is the victim, if that group is not empty. */
  lemma EvictOk<K(!new)>(freqs: map<K, nat>, groups: Groups<K>, trace: seq<Event<K>>, min: nat)
    requires GroupsOk(freqs, groups, trace) && GroupOf(groups, min) != []
    requires forall k | k in freqs :: min <= freqs[k]
    ensures var victim := GroupOf(groups, min)[0];
            && IsVictim(freqs.Keys, trace, victim)
            && GroupsOk(freqs - {victim}, groups[min := GroupOf(groups, min)[1..]], trace)
  {
    var group := GroupOf(groups, min);
    assert group[0] in group;
    FrontIsOldest(group, trace);
    DropOk(freqs, groups, trace, group[0]);
    VictimInFront(freqs, groups, trace, min);
  }

  lemma VictimInFront<K(!new)>(freqs: map<K, nat>, groups: Groups<K>, trace: seq<Event<K>>, min: nat)
    requires GroupsOk(freqs, groups, trace) && GroupOf(groups, min) != []
    requires forall k | k in freqs :: min <= freqs[k]
    ensures IsVictim(freqs.Keys, trace, GroupOf(groups, min)[0])
  {
    hide Uses, LastTouch, Without;
    var group := GroupOf(groups, min);
    assert group[0] in group;
    FrontIsOldest(group, trace);
    hide Chronological;
    forall k | k in freqs && k != group[0] && freqs[k] == min ensures k in group {}
  }

  /** All that putting one key does: its own event, its own entry, and a victim if there was no room for it. */
  ghost predicate Puts<K(!new), V>(capacity: int, cache: map<K, V>, trace: seq<Event<K>>, cache': map<K, V>,
                             trace': seq<Event<K>>, key: K, value: V) {
    && trace' == trace + [if key in cache then Use(key) else Insert(key)]
    && if key in cache || |cache| < capacity then cache' == cache[key := value]
       else exists victim :: IsVictim(cache.Keys, trace, victim) && cache' == (cache - {victim})[key := value]
  }

  class Cache<K(==, !new), V> {
    const capacity: int
    var cache: map<K, V>
    var frequencies: map<K, nat>
    var freqGroups: Groups<K>
    var minFreq: nat

    ghost var trace: seq<Event<K>>

    ghost predicate Valid()
      reads this
    {
      && cache.Keys == frequencies.Keys
      && GroupsOk(frequencies, freqGroups, trace)
      && |cache| <= (if capacity < 0 then 0 else capacity)
      // The hint never exceeds a stored frequency ...
      && (forall k | k in frequencies :: minFreq <= frequencies[k])
      // ... and is exact whenever an eviction could be due.
      && (0 < capacity <= |cache| ==> GroupOf(freqGroups, minFreq) != [])
    }

    constructor (capacity: int)
      ensures Valid() && this.capacity == capacity && cache == map[] && trace == []
    {
      hide GroupsOk;
      this.capacity := capacity;
      cache, frequencies, freqGroups, minFreq := map[], map[], map[], 0;
      trace := [];
      EmptyOk<K>([]);
    }

    /** Moves a present key up one group: what a hit does, on `get` and on `put`. */
    method Promote(key: K)
      requires Valid() && key in cache
      modifies this`frequencies, this`freqGroups, this`minFreq, this`trace
      ensures Valid() && trace == old(trace) + [Use(key)]
    {
      hide GroupsOk, DropKey, AddKey, GroupOf;
      PromoteOk(frequencies, freqGroups, trace, key);
      PromotedHint(frequencies, freqGroups, trace, key, minFreq);
      var freq := frequencies[key];
      frequencies := frequencies[key := freq + 1];
      freqGroups := DropKey(freqGroups, freq, key);
      if GroupOf(freqGroups, freq) == [] && minFreq == freq {
        minFreq := minFreq + 1;
      }
      freqGroups := AddKey(freqGroups, freq + 1, key);
      trace := trace + [Use(key)];
    }

    method Get(key: K) returns (r: Option<V>)
      requires Valid()
      modifies this
      ensures Valid() && cache == old(cache)
      ensures r == if key in cache then Some(cache[key]) else None
      ensures trace == old(trace) + if key in cache then [Use(key)] else []
    {
      if key !in cache {
        return None;
      }
      Promote(key);
      return Some(cache[key]);
    }

    /** Inserts or updates; `evicted` names the key that had to make room, if one had to. */
    method Put(key: K, value: V) returns (ghost evicted: Option<K>)
      requires Valid()
      modifies this
      ensures Valid()
      ensures capacity <= 0 || key in old(cache) || |old(cache)| < capacity ==> evicted == None
      ensures !(capacity <= 0 || key in old(cache) || |old(cache)| < capacity) ==>
                evicted.Some? && IsVictim(old(cache).Keys, old(trace), evicted.value)
      ensures cache == if capacity <= 0 then old(cache)
                       else (old(cache) - (if evicted.Some? then {evicted.value} else {}))[key := value]
      ensures trace == if capacity <= 0 then old(trace)
                       else old(trace) + [if key in old(cache) then Use(key) else Insert(key)]
      ensures capacity > 0 ==> Puts(capacity, old(cache), old(trace), cache, trace, key, value)
    {
      hide GroupsOk, IsVictim;
      evicted := None;
      if capacity <= 0 {
        return;
      }
      if key in cache {
        cache := cache[key := value];
        Promote(key);
        return;
      }
      if |cache| >= capacity {
        var evictKey := Evict();
        evicted := Some(evictKey);
      }
      AddNew(key, value);
    }

    /** `popitem(last=False)` on the group of the least frequency. */
    method Evict() returns (evictKey: K)
      requires Valid() && 0 < capacity <= |cache|
      modifies this`cache, this`frequencies, this`freqGroups
      ensures Valid() && |cache| < capacity
      ensures IsVictim(old(cache).Keys, trace, evictKey)
      ensures cache == old(cache) - {evictKey}
    {
      hide GroupsOk, IsVictim, GroupOf;
      EvictOk(frequencies, freqGroups, trace, minFreq);
      var group := GroupOf(freqGroups, minFreq);
      evictKey := group[0];
      freqGroups := freqGroups[minFreq := group[1..]];
      VictimCached(cache.Keys, trace, evictKey);
      cache := cache - {evictKey};
      frequencies := frequencies - {evictKey};
      assert |old(cache)| == |cache| + 1 by { assert old(cache) == cache[evictKey := old(cache)[evictKey]]; }
    }

    /** A key that was not cached enters with one use, which makes the hint exact. */
    method AddNew(key: K, value: V)
      requires Valid() && key !in cache && |cache| < capacity
      modifies this
      ensures Valid() && cache == old(cache)[key := value] && trace == old(trace) + [Insert(key)]
    {
      hide GroupsOk, AddKey, GroupOf;
      EnterOk(frequencies, freqGroups, trace, key);
      cache := cache[key := value];
      frequencies := frequencies[key := 1];
      minFreq := 1;
      freqGroups := AddKey(freqGroups, 1, key);
      trace := trace + [Insert(key)];
    }

    /** Removes a key; `minFreq` is not touched and may now name an empty group. */
    method Invalidate(key: K)
      requires Valid()
      modifies this`cache, this`frequencies, this`freqGroups
      ensures Valid() && cache == old(cache) - {key}
    {
      hide GroupsOk, DropKey;
      if key in cache {
        var freq := frequencies[key];
        DropOk(frequencies, freqGroups, trace, key);
        freqGroups := DropKey(freqGroups, freq, key);
        cache := cache - {key};
        frequencies := frequencies - {key};
        assert |old(cache)| == |cache| + 1 by { assert old(cache) == cache[key := old(cache)[key]]; }
      }
    }

    method Clear()
      requires Valid()
      modifies this`cache, this`frequencies, this`freqGroups, this`minFreq
      ensures Valid() && cache == map[]
    {
      hide GroupsOk;
      EmptyOk(trace);
      cache, frequencies, freqGroups, minFreq := map[], map[], map[], 0;
    }
  }
}
