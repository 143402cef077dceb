/** std::map<std::string, std::string>: entries in strictly ascending order of their keys. */
module OrderedMap {

  datatype Header = Header(key: string, value: string)

  /** Lexicographic order on strings. */
  predicate Less(a: string, b: string) {
    b != [] && (a == [] || a[0] < b[0] || (a[0] == b[0] && Less(a[1..], b[1..])))
  }

  /** The strings agree up to `n`, where `a` ends or has the smaller character. */
  ghost predicate PrecedesAt(a: string, b: string, n: nat) {
    n <= |a| && n < |b| && a[..n] == b[..n] && (n == |a| || a[n] < b[n])
  }

  /** `a` is a proper prefix of `b`, or has the smaller character where they first differ. */
  lemma {:induction false} LessExactly(a: string, b: string)
    ensures Less(a, b) <==> exists n: nat :: PrecedesAt(a, b, n)
  {
    if a == [] || b == [] || a[0] != b[0] {
      assert b != [] && (a == [] || a[0] < b[0]) <==> PrecedesAt(a, b, 0);
      forall n | 0 < n <= |a| && n < |b| ensures a[..n] != b[..n] {
        assert a[..n][0] == a[0] && b[..n][0] == b[0];
      }
    } else {
      LessExactly(a[1..], b[1..]);
      forall n: nat ensures PrecedesAt(a[1..], b[1..], n) <==> PrecedesAt(a, b, n + 1) {
        StepInside(a, b, n);
      }
      assert !PrecedesAt(a, b, 0);
      if n: nat :| PrecedesAt(a, b, n) {
        assert n != 0 && PrecedesAt(a[1..], b[1..], n - 1);
      }
    }
  }

  lemma StepInside(a: string, b: string, n: nat)
    requires a != [] && b != [] && a[0] == b[0]
    ensures PrecedesAt(a[1..], b[1..], n) <==> PrecedesAt(a, b, n + 1)
  {
    if n + 1 <= |a| && n + 1 <= |b| {
      assert a[..n + 1] == [a[0]] + a[1..][..n] && b[..n + 1] == [b[0]] + b[1..][..n];
      assert a[1..][..n] == a[..n + 1][1..] && b[1..][..n] == b[..n + 1][1..];
    }
  }

  lemma {:induction false} LessIsStrict(a: string)
    ensures !Less(a, a)
  {
    if a != [] {
      LessIsStrict(a[1..]);
    }
  }

  lemma {:induction false} LessIsTotal(a: string, b: string)
    ensures Less(a, b) || a == b || Less(b, a)
  {
    if a != [] && b != [] && a[0] == b[0] {
      LessIsTotal(a[1..], b[1..]);
      assert a[1..] == b[1..] ==> a == [a[0]] + a[1..] == [b[0]] + b[1..] == b;
    }
  }

  lemma {:induction false} LessIsTransitive(a: string, b: string, c: string)
    requires Less(a, b) && Less(b, c)
    ensures Less(a, c)
  {
    if a != [] && a[0] == b[0] && b[0] == c[0] {
      LessIsTransitive(a[1..], b[1..], c[1..]);
    }
  }

  ghost predicate Sorted(m: seq<Header>) {
    forall i, j :: 0 <= i < j < |m| ==> Less(m[i].key, m[j].key)
  }

  /** The entry of `key` is replaced, or inserted where the order wants it. */
  function Set(m: seq<Header>, key: string, value: string): seq<Header> {
    if m == [] then [Header(key, value)]
    else if m[0].key == key then [Header(key, value)] + m[1..]
    else if Less(key, m[0].key) then [Header(key, value)] + m
    else [m[0]] + Set(m[1..], key, value)
  }

  /** Set entry after entry, so that a later entry wins over an earlier one. */
  function SetAll(m: seq<Header>, hs: seq<Header>): seq<Header>
    decreases |hs|
  {
    if hs == [] then m
    else SetAll(Set(m, hs[0].key, hs[0].value), hs[1..])
  }

  /** What the map says, forgetting how it is stored. */
  function AsMap(m: seq<Header>): map<string, string> {
    if m == [] then map[] else AsMap(m[1..])[m[0].key := m[0].value]
  }

  lemma {:induction false} AsMapKeys(m: seq<Header>, k: string)
    ensures k in AsMap(m) <==> exists i :: 0 <= i < |m| && m[i].key == k
  {
    if m != [] {
      AsMapKeys(m[1..], k);
      if k in AsMap(m[1..]) {
        var i :| 0 <= i < |m[1..]| && m[1..][i].key == k;
        assert m[i + 1].key == k;
      }
      if i :| 0 < i < |m| && m[i].key == k {
        assert m[1..][i - 1].key == k;
      }
    }
  }

  /** Nothing but the new entry comes in. */
  lemma {:induction false} SetEntries(m: seq<Header>, key: string, value: string)
    ensures forall h :: h in Set(m, key, value) ==> h in m || h == Header(key, value)
  {
    if m != [] {
      SetEntries(m[1..], key, value);
    }
  }

  lemma {:induction false} SetKeepsSorted(m: seq<Header>, key: string, value: string)
    requires Sorted(m)
    ensures Sorted(Set(m, key, value))
  {
    if m == [] || m[0].key == key {
    } else if Less(key, m[0].key) {
      forall i | 0 < i < |m| ensures Less(key, m[i].key) {
        LessIsTransitive(key, m[0].key, m[i].key);
      }
    } else {
      LessIsTotal(key, m[0].key);
      SetKeepsSorted(m[1..], key, value);
      SetEntries(m[1..], key, value);
      var s := Set(m[1..], key, value);
      forall i | 0 <= i < |s| ensures Less(m[0].key, s[i].key) {
        assert s[i] in s;
      }
    }
  }

  lemma {:induction false} SetUpdatesMap(m: seq<Header>, key: string, value: string)
    ensures AsMap(Set(m, key, value)) == AsMap(m)[key := value]
  {
    if m == [] || m[0].key == key {
    } else if Less(key, m[0].key) {
      assert ([Header(key, value)] + m)[1..] == m;
    } else {
      SetUpdatesMap(m[1..], key, value);
      assert Set(m, key, value)[1..] == Set(m[1..], key, value);
    }
  }

  lemma {:induction false} SetAtEnd(m: seq<Header>, key: string, value: string)
    requires forall i :: 0 <= i < |m| ==> Less(m[i].key, key)
    ensures Set(m, key, value) == m + [Header(key, value)]
  {
    if m != [] {
      assert !Less(key, m[0].key) && m[0].key != key by {
        LessIsStrict(key);
        if Less(key, m[0].key) {
          LessIsTransitive(key, m[0].key, key);
        }
      }
      SetAtEnd(m[1..], key, value);
    }
  }

  /** Setting the entries of a map in its own order rebuilds the map. */
  lemma {:induction false} SetAllRebuilds(m: seq<Header>, hs: seq<Header>)
    requires Sorted(m + hs)
    ensures SetAll(m, hs) == m + hs
    decreases |hs|
  {
    if hs == [] {
      assert m + hs == m;
    } else {
      forall i | 0 <= i < |m| ensures Less(m[i].key, hs[0].key) {
        assert (m + hs)[i] == m[i] && (m + hs)[|m|] == hs[0];
      }
      SetAtEnd(m, hs[0].key, hs[0].value);
      assert Header(hs[0].key, hs[0].value) == hs[0];
      assert (m + [hs[0]]) + hs[1..] == m + hs;
      SetAllRebuilds(m + [hs[0]], hs[1..]);
    }
  }

  /** The value a list of entries gives to `k`: that of the last entry with this key. */
  ghost predicate LastValue(hs: seq<Header>, k: string, v: string) {
    exists i :: 0 <= i < |hs| && hs[i] == Header(k, v) && forall j :: i < j < |hs| ==> hs[j].key != k
  }

  ghost predicate HasKey(hs: seq<Header>, k: string) {
    exists i :: 0 <= i < |hs| && hs[i].key == k
  }

  lemma HasKeyCons(hs: seq<Header>, k: string)
    requires hs != []
    ensures HasKey(hs, k) <==> hs[0].key == k || HasKey(hs[1..], k)
  {
    if i :| 0 < i < |hs| && hs[i].key == k {
      assert hs[1..][i - 1].key == k;
    }
    if i :| 0 <= i < |hs[1..]| && hs[1..][i].key == k {
      assert hs[i + 1].key == k;
    }
  }

  lemma LastValueCons(hs: seq<Header>, k: string, v: string)
    requires hs != []
    ensures LastValue(hs, k, v) <==> LastValue(hs[1..], k, v) || (hs[0] == Header(k, v) && !HasKey(hs[1..], k))
  {
    if i :| 0 <= i < |hs| && hs[i] == Header(k, v) && forall j :: i < j < |hs| ==> hs[j].key != k {
      if i > 0 {
        assert hs[1..][i - 1] == Header(k, v);
      }
    }
    if i :| 0 <= i < |hs[1..]| && hs[1..][i] == Header(k, v) && forall j :: i < j < |hs[1..]| ==> hs[1..][j].key != k {
      assert hs[i + 1] == Header(k, v);
      forall j | i + 1 < j < |hs| ensures hs[j].key != k {
        assert hs[1..][j - 1].key != k;
      }
    }
    if hs[0] == Header(k, v) && !HasKey(hs[1..], k) {
      forall j | 0 < j < |hs| ensures hs[j].key != k {
        assert hs[1..][j - 1].key != k;
      }
    }
  }

  lemma {:induction false} SetAllAt(m: seq<Header>, hs: seq<Header>, k: string)
    ensures k in AsMap(SetAll(m, hs)) <==> k in AsMap(m) || HasKey(hs, k)
    ensures forall v :: LastValue(hs, k, v) ==> k in AsMap(SetAll(m, hs)) && AsMap(SetAll(m, hs))[k] == v
    ensures k in AsMap(m) && !HasKey(hs, k) ==> k in AsMap(SetAll(m, hs)) && AsMap(SetAll(m, hs))[k] == AsMap(m)[k]
    decreases |hs|
  {
    if hs != [] {
      hide LastValue, HasKey, Set;
      SetUpdatesMap(m, hs[0].key, hs[0].value);
      SetAllAt(Set(m, hs[0].key, hs[0].value), hs[1..], k);
      HasKeyCons(hs, k);
      forall v | LastValue(hs, k, v) ensures k in AsMap(SetAll(m, hs)) && AsMap(SetAll(m, hs))[k] == v {
        LastValueCons(hs, k, v);
      }
    }
  }

  lemma {:induction false} SetAllKeepsSorted(m: seq<Header>, hs: seq<Header>)
    requires Sorted(m)
    ensures Sorted(SetAll(m, hs))
    decreases |hs|
  {
    if hs != [] {
      SetKeepsSorted(m, hs[0].key, hs[0].value);
      SetAllKeepsSorted(Set(m, hs[0].key, hs[0].value), hs[1..]);
    }
  }

  /** Setting a list of entries gives every key the value of its last entry and leaves the other
      keys as they were. */
  lemma SetAllIsLastWins(m: seq<Header>, hs: seq<Header>)
    requires Sorted(m)
    ensures Sorted(SetAll(m, hs))
    ensures forall k :: k in AsMap(SetAll(m, hs)) <==> k in AsMap(m) || HasKey(hs, k)
    ensures forall k, v :: LastValue(hs, k, v) ==> k in AsMap(SetAll(m, hs)) && AsMap(SetAll(m, hs))[k] == v
    ensures forall k :: k in AsMap(m) && !HasKey(hs, k) ==>
              k in AsMap(SetAll(m, hs)) && AsMap(SetAll(m, hs))[k] == AsMap(m)[k]
  {
    hide LastValue, HasKey, Set, AsMap, SetAll;
    SetAllKeepsSorted(m, hs);
    forall k {
      SetAllAt(m, hs, k);
    }
  }

  /** Equal contents are stored equally, so maps may be compared as they are stored. */
  lemma {:induction false} StoredOneWay(m: seq<Header>, n: seq<Header>)
    requires Sorted(m) && Sorted(n) && AsMap(m) == AsMap(n)
    ensures m == n
  {
    OnlyEmptyIsEmpty(m);
    OnlyEmptyIsEmpty(n);
    if m != [] {
      FirstKeys(m, n);
      FirstKeys(n, m);
      LessIsTotal(m[0].key, n[0].key);
      KeyNotInRest(m);
      KeyNotInRest(n);
      assert AsMap(m)[m[0].key] == m[0].value && AsMap(n)[n[0].key] == n[0].value;
      assert AsMap(m[1..]) == AsMap(m) - {m[0].key};
      assert AsMap(n[1..]) == AsMap(n) - {n[0].key};
      StoredOneWay(m[1..], n[1..]);
      assert m == [m[0]] + m[1..] && n == [n[0]] + n[1..];
    }
  }

  lemma OnlyEmptyIsEmpty(m: seq<Header>)
    ensures AsMap(m) == map[] <==> m == []
  {
    assert m != [] ==> m[0].key in AsMap(m);
  }

  lemma KeyNotInRest(m: seq<Header>)
    requires Sorted(m) && m != []
    ensures m[0].key !in AsMap(m[1..])
  {
    AsMapKeys(m[1..], m[0].key);
    LessIsStrict(m[0].key);
  }

  lemma FirstKeys(m: seq<Header>, n: seq<Header>)
    requires Sorted(m) && Sorted(n) && m != [] && n != [] && AsMap(m) == AsMap(n)
    ensures !Less(m[0].key, n[0].key)
  {
    if Less(m[0].key, n[0].key) {
      AsMapKeys(n, m[0].key);
      var i :| 0 <= i < |n| && n[i].key == m[0].key;
      LessIsStrict(m[0].key);
      if i > 0 {
        LessIsTransitive(n[0].key, n[i].key, n[0].key);
        LessIsStrict(n[0].key);
      }
    }
  }
}
