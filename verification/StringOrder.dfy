/** The order Python uses on `str`: lexicographic by code point. */
module StringOrder {

  predicate Less(a: string, b: string)
    decreases a
  {
    b != "" && (a == "" || a[0] < b[0] || (a[0] == b[0] && Less(a[1..], b[1..])))
  }

  /** `n` is where `a` and `b` part, and `a` is the lower one there: it ends, or its code point is the lower. */
  ghost predicate PartsAt(a: string, b: string, n: nat) {
    n <= |a| && n < |b| && a[..n] == b[..n] && (n == |a| || a[n] as int < b[n] as int)
  }

  /** The order by the first difference alone. */
  ghost predicate Below(a: string, b: string) {
    exists n: nat :: PartsAt(a, b, n)
  }

  lemma {:induction false} LessIsBelow(a: string, b: string)
    ensures Less(a, b) <==> Below(a, b)
    decreases a
  {
    if b != "" {
      if a == "" || a[0] < b[0] {
        assert PartsAt(a, b, 0);
      } else if a[0] == b[0] {
        LessIsBelow(a[1..], b[1..]);
        if n: nat :| PartsAt(a[1..], b[1..], n) {
          PartsFurther(a, b, n);
        }
        if n: nat :| PartsAt(a, b, n) {
          PartsNearer(a, b, n);
        }
      } else {
        forall n: nat ensures !PartsAt(a, b, n) {
          assert n > 0 && n <= |a| && n < |b| ==> a[..n][0] != b[..n][0];
        }
      }
    }
  }

  lemma PartsFurther(a: string, b: string, n: nat)
    requires a != "" && b != "" && a[0] == b[0] && PartsAt(a[1..], b[1..], n)
    ensures PartsAt(a, b, n + 1)
  {
    assert a[..n + 1] == [a[0]] + a[1..][..n] && b[..n + 1] == [b[0]] + b[1..][..n];
  }

  lemma PartsNearer(a: string, b: string, n: nat)
    requires a != "" && b != "" && a[0] == b[0] && PartsAt(a, b, n)
    ensures n > 0 && PartsAt(a[1..], b[1..], n - 1)
  {
    if n > 0 { assert a[1..][..n - 1] == a[..n][1..] && b[1..][..n - 1] == b[..n][1..]; }
  }

  /** Exactly one of `a < b`, `a == b`, `b < a`. */
  lemma {:induction false} Trichotomy(a: string, b: string)
    ensures Less(a, b) || a == b || Less(b, a)
    ensures !(Less(a, b) && Less(b, a))
    ensures !Less(a, a)
    decreases a
  {
    if a != "" {
      Trichotomy(a[1..], a[1..]);
      if b != "" {
        Trichotomy(a[1..], b[1..]);
        assert a == [a[0]] + a[1..] && b == [b[0]] + b[1..];
      }
    }
  }

  lemma {:induction false} Transitive(a: string, b: string, c: string)
    requires Less(a, b) && Less(b, c)
    ensures Less(a, c)
    decreases a
  {
    if a != "" && a[0] == b[0] && b[0] == c[0] {
      Transitive(a[1..], b[1..], c[1..]);
    }
  }

  /** Every pair in order: strict sortedness of a key list. */
  ghost predicate SortedKeys(keys: seq<string>) {
    forall i, j | 0 <= i < j < |keys| :: Less(keys[i], keys[j])
  }

  /** The first position whose key is not below `key`: what a left-to-right scan finds. */
  function Slot(keys: seq<string>, key: string): (i: nat)
    ensures i <= |keys|
    ensures forall j | 0 <= j < i :: Less(keys[j], key)
    ensures i < |keys| ==> !Less(keys[i], key)
  {
    if keys == [] || !Less(keys[0], key) then 0 else 1 + Slot(keys[1..], key)
  }

  /** On sorted keys every position from `Slot` on, other than a match, lies above `key`. */
  lemma SlotSplits(keys: seq<string>, key: string, j: nat)
    requires SortedKeys(keys) && Slot(keys, key) <= j < |keys|
    requires keys[j] != key
    ensures Less(key, keys[j])
  {
    var i := Slot(keys, key);
    Trichotomy(keys[i], key);
    if j > i && keys[i] != key {
      Transitive(key, keys[i], keys[j]);
    }
  }

  /** If the slot holds another key, sorted keys do not contain `key` at all. */
  lemma SlotMiss(keys: seq<string>, key: string)
    requires SortedKeys(keys)
    requires var i := Slot(keys, key); i < |keys| ==> keys[i] != key
    ensures key !in keys
  {
    Trichotomy(key, key);
    var i := Slot(keys, key);
    forall j | i <= j < |keys| ensures keys[j] != key {
      SlotSplits(keys, key, i);
      if i < j { Transitive(key, keys[i], keys[j]); }
    }
  }

  /** `bisect.bisect_left`: binary search for the insertion point. */
  method BisectLeft(keys: seq<string>, key: string) returns (lo: nat)
    requires SortedKeys(keys)
    ensures lo == Slot(keys, key)
  {
    lo := 0;
    var hi := |keys|;
    while lo < hi
      invariant lo <= Slot(keys, key) <= hi <= |keys|
    {
      var mid := (lo + hi) / 2;
      if Less(keys[mid], key) {
        if Slot(keys, key) <= mid {
          Trichotomy(keys[mid], key);
          SlotSplits(keys, key, mid);
        }
        lo := mid + 1;
      } else {
        hi := mid;
      }
    }
  }
}
