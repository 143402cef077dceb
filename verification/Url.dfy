/** Splitting a URL into its path and its query. */
module Url {
  import opened Wrappers
  import opened StringParser

  /** One more than the largest std::size_t; no string is half as long. */
  const SIZE: nat := 0x1_0000_0000_0000_0000

  datatype Pair = Pair(key: string, value: string)

  datatype URL = URL(path: string, query: map<string, string>)

  // ----- What the code computes -----

  function PathOf(str: string): string {
    match Find(str, "?")
    case None => str
    case Some(i) => str[..i]
  }

  /** Where the first `&` is, or the end. */
  function Amp(s: string): (r: nat)
    ensures r <= |s|
  {
    match Find(s, "&")
    case None => |s|
    case Some(i) => i
  }

  lemma AmpIsFirst(s: string)
    ensures (Amp(s) < |s| ==> s[Amp(s)] == '&') && '&' !in s[..Amp(s)]
  {
  }

  /** What is left for the next round. */
  function AfterAmp(s: string): (r: string)
    ensures s != [] ==> |r| < |s|
  {
    if Amp(s) == |s| then [] else s[Amp(s) + 1..]
  }

  /** The assignments made while scanning `s`. The key runs up to the next `=`, even across an
      `&`; in that case the length of the value wraps around and the value runs to the end. */
  function Scan(s: string): seq<Pair>
    decreases |s|
  {
    match Find(s, "=")
    case None => []
    case Some(eq) =>
      var value := if eq < Amp(s) then s[eq + 1..Amp(s)] else s[eq + 1..];
      [Pair(s[..eq], value)] + Scan(AfterAmp(s))
  }

  /** Assign pair after pair; the last one wins. */
  function Fold(m: map<string, string>, ps: seq<Pair>): map<string, string>
    decreases |ps|
  {
    if ps == [] then m else Fold(m[ps[0].key := ps[0].value], ps[1..])
  }

  lemma NoMorePairs(m: map<string, string>, s: string)
    requires Find(s, "=") == None
    ensures Fold(m, Scan(s)) == m
  {
  }

  lemma FoldOne(m: map<string, string>, p: Pair, ps: seq<Pair>)
    ensures Fold(m, [p] + ps) == Fold(m[p.key := p.value], ps)
  {
    assert ([p] + ps)[1..] == ps;
  }

  function From(s: string, i: nat): string {
    if i <= |s| then s[i..] else []
  }

  // ----- The code -----

  /** std::string::find from a position on. */
  method FindFrom(s: string, c: string, start: nat) returns (r: Option<nat>)
    ensures r.None? <==> Find(From(s, start), c).None?
    ensures r.Some? ==> start <= |s| && r.value == start + Find(s[start..], c).value
  {
    if |s| < start {
      return None;
    }
    r := FindFirst(s[start..], c);
    if r.Some? {
      r := Some(start + r.value);
    }
  }

  /** The next `&`, or the end of the string when there is none. */
  method AmpFrom(s: string, start: nat) returns (r: nat)
    ensures r == if start <= |s| then start + Amp(s[start..]) else |s|
  {
    var found := FindFrom(s, "&", start);
    r := if found.None? then |s| else found.value;
  }

  /** std::string::substr: a start beyond the end would throw, a length beyond the end is cut. */
  method Substr(s: string, pos: nat, count: nat) returns (r: string)
    requires pos <= |s|
    ensures r == s[pos..Cut(|s|, pos, count)]
  {
    r := s[pos..Cut(|s|, pos, count)];
  }

  function Cut(size: nat, pos: nat, count: nat): (end: nat)
    requires pos <= size
    ensures pos <= end <= size
  {
    if pos + count <= size then pos + count else size
  }

  method Path(str: string) returns (r: string)
    ensures r == PathOf(str)
  {
    var i := FindFirst(str, "?");
    r := if i.Some? then str[..i.value] else str;
  }

  /** The two substrings of one round. */
  method CutPair(str: string, queryIndex: nat, eqPos: nat, ampPos: nat) returns (key: string, value: string)
    requires |str| < SIZE / 2 && queryIndex <= eqPos < |str|
    requires var s := str[queryIndex..];
      Find(s, "=").Some? && queryIndex + Find(s, "=").value == eqPos && queryIndex + Amp(s) == ampPos
    ensures var s := str[queryIndex..];
      Scan(s) == [Pair(key, value)] + Scan(AfterAmp(s)) && AfterAmp(s) == From(str, ampPos + 1)
  {
    key := Substr(str, queryIndex, eqPos - queryIndex);
    value := Substr(str, eqPos + 1, Length(eqPos, ampPos));
    PairIsScanned(str, queryIndex, str[queryIndex..], eqPos, ampPos, key, value);
  }

  /** On every string the loop ends and no substr starts out of range. */
  method Searchpart(str: string, start: nat) returns (query: map<string, string>)
    requires |str| < SIZE / 2
    ensures query == Fold(map[], Scan(From(str, start)))
  {
    hide Scan, Fold, Find, Amp, AfterAmp;
    query := map[];
    var queryIndex := start;
    ghost var s := From(str, start);
    ghost var result := Fold(query, Scan(s));
    while true
      invariant s == From(str, queryIndex)
      invariant Fold(query, Scan(s)) == result
      decreases if queryIndex <= |str| + 1 then |str| + 1 - queryIndex else 0
    {
      var eqPos := FindFrom(str, "=", queryIndex);
      var ampPos := AmpFrom(str, queryIndex);
      if eqPos.None? {
        NoMorePairs(query, s);
        break;
      }
      var key, value := CutPair(str, queryIndex, eqPos.value, ampPos);
      FoldOne(query, Pair(key, value), Scan(AfterAmp(s)));
      query := query[key := value];
      queryIndex := ampPos + 1;
      s := AfterAmp(s);
    }
  }

  /** The length of a value, as a std::size_t: it wraps around when the `&` comes first. */
  function Length(eq: nat, amp: nat): nat {
    (amp - eq - 1) % SIZE
  }

  lemma WrappedLength(eq: nat, amp: nat, size: nat)
    requires size < SIZE / 2 && eq < size && amp <= size && eq != amp
    ensures Cut(size, eq + 1, Length(eq, amp)) == if eq < amp then amp else size
  {
    if amp < eq {
      assert (amp - eq - 1) % SIZE == amp - eq - 1 + SIZE;
    }
  }

  lemma ScanStep(s: string, eq: nat, end: nat)
    requires Find(s, "=") == Some(eq) && eq < end <= |s|
    requires end == if eq < Amp(s) then Amp(s) else |s|
    ensures Scan(s) == [Pair(s[..eq], s[eq + 1..end])] + Scan(AfterAmp(s))
  {
    hide Find, Amp, AfterAmp;
    if Amp(s) <= eq {
      assert s[eq + 1..end] == s[eq + 1..];
    }
  }

  lemma TailSlice(str: string, from: nat, a: nat, b: nat)
    requires from <= a <= b <= |str|
    ensures str[from..][a - from..b - from] == str[a..b]
    ensures str[from..][..b - from] == str[from..b]
  {
  }

  /** What one round of the loop takes off the scanned text `s`, which starts at `from`. */
  lemma ScanRound(str: string, from: nat, s: string, eq: nat, end: nat, key: string, value: string)
    requires from <= eq < end <= |str| && s == str[from..]
    requires Find(s, "=").Some? && from + Find(s, "=").value == eq
    requires end - from == if eq - from < Amp(s) then Amp(s) else |s|
    requires key == str[from..eq] && value == str[eq + 1..end]
    ensures Scan(s) == [Pair(key, value)] + Scan(AfterAmp(s))
  {
    hide Find, Amp, AfterAmp, Scan;
    var i, j := Find(s, "=").value, end - from;
    ScanStep(s, i, j);
    TailSlice(str, from, eq, eq);
    TailSlice(str, from, eq + 1, end);
    assert i == eq - from && i + 1 == eq + 1 - from;
    assert s[..i] == str[from..][..eq - from] == key;
    assert s[i + 1..j] == str[from..][eq + 1 - from..end - from] == value;
  }

  lemma PairIsScanned(str: string, from: nat, s: string, eq: nat, amp: nat, key: string, value: string)
    requires |str| < SIZE / 2 && from <= eq < |str| && s == str[from..]
    requires Find(s, "=").Some? && from + Find(s, "=").value == eq && from + Amp(s) == amp
    requires key == str[from..Cut(|str|, from, eq - from)]
    requires value == str[eq + 1..Cut(|str|, eq + 1, Length(eq, amp))]
    ensures Scan(s) == [Pair(key, value)] + Scan(AfterAmp(s)) && AfterAmp(s) == From(str, amp + 1)
  {
    AmpIsFirst(s);
    assert s[eq - from] == '=';
    hide Find, Scan, Amp, AfterAmp;
    WrappedLength(eq, amp, |str|);
    NextRound(str, from, s, amp);
    ScanRound(str, from, s, eq, if eq < amp then amp else |str|, key, value);
  }

  lemma NextRound(str: string, from: nat, s: string, amp: nat)
    requires from <= |str| && s == str[from..] && from + Amp(s) == amp
    ensures AfterAmp(s) == From(str, amp + 1)
  {
    hide Amp;
    assert amp < |str| ==> str[from..][amp - from + 1..] == str[amp + 1..];
  }

  method FromString(str: string) returns (r: URL)
    requires |str| < SIZE / 2
    ensures r == Parsed(str)
  {
    hide Find, PathOf, Scan, Fold, From;
    var path := Path(str);
    var query := Searchpart(str, |path| + 1);
    r := URL(path, query);
  }

  function Parsed(str: string): URL {
    URL(PathOf(str), Fold(map[], Scan(From(str, |PathOf(str)| + 1))))
  }

  // ----- The meaning: split on `&`, split each segment at its first `=` -----

  function Split(s: string): seq<string>
    decreases |s|
  {
    if Amp(s) == |s| then [s] else [s[..Amp(s)]] + Split(s[Amp(s) + 1..])
  }

  function SegmentPair(seg: string): seq<Pair> {
    match Find(seg, "=")
    case None => []
    case Some(eq) => [Pair(seg[..eq], seg[eq + 1..])]
  }

  function SegmentPairs(segs: seq<string>): seq<Pair> {
    if segs == [] then [] else SegmentPair(segs[0]) + SegmentPairs(segs[1..])
  }

  ghost predicate AnyHas(segs: seq<string>) {
    segs != [] && ('=' in segs[0] || AnyHas(segs[1..]))
  }

  /** No segment without `=` stands before one that has it. */
  ghost predicate NoGap(segs: seq<string>) {
    segs != [] ==> NoGap(segs[1..]) && ('=' in segs[0] || !AnyHas(segs[1..]))
  }

  lemma {:induction false} AnyHasMeans(segs: seq<string>)
    ensures AnyHas(segs) <==> exists i :: 0 <= i < |segs| && '=' in segs[i]
  {
    if segs != [] {
      AnyHasMeans(segs[1..]);
      if i :| 0 < i < |segs| && '=' in segs[i] {
        assert segs[1..][i - 1] == segs[i];
      }
      if i :| 0 <= i < |segs[1..]| && '=' in segs[1..][i] {
        assert segs[i + 1] == segs[1..][i];
      }
    }
  }

  /** Every segment up to the last one containing `=` itself contains `=`. */
  lemma {:induction false} NoGapMeans(segs: seq<string>)
    ensures NoGap(segs) <==> forall i, j :: 0 <= i < j < |segs| && '=' in segs[j] ==> '=' in segs[i]
  {
    if segs != [] {
      var rest := segs[1..];
      NoGapMeans(rest);
      AnyHasMeans(rest);
      assert forall i :: 0 <= i < |rest| ==> rest[i] == segs[i + 1];
      assert forall i :: 1 <= i < |segs| ==> segs[i] == rest[i - 1];
      if forall i, j :: 0 <= i < j < |segs| && '=' in segs[j] ==> '=' in segs[i] {
        forall i, j | 0 <= i < j < |rest| && '=' in rest[j] ensures '=' in rest[i] {
          assert rest[i] == segs[i + 1] && rest[j] == segs[j + 1];
        }
      }
    }
  }

  lemma {:induction false} SplitHas(s: string)
    ensures '=' in s <==> AnyHas(Split(s))
    decreases |s|
  {
    if Amp(s) == |s| {
      assert Split(s)[1..] == [];
    } else {
      var a, b := SplitTwo(s);
      SplitHas(b);
      assert '=' in a + "&" + b <==> '=' in a || '=' in b;
    }
  }

  lemma SplitTwo(s: string) returns (a: string, b: string)
    requires Amp(s) < |s|
    ensures a == s[..Amp(s)] && b == s[Amp(s) + 1..] && s == a + "&" + b
    ensures Split(s)[0] == a && Split(s)[1..] == Split(b)
  {
    AmpIsFirst(s);
    a, b := s[..Amp(s)], s[Amp(s) + 1..];
  }

  /** In a segment the first `=` is the same as in the whole text. */
  lemma FirstSegment(s: string)
    ensures '=' in s[..Amp(s)] ==>
      Find(s, "=").Some? && Find(s, "=") == Find(s[..Amp(s)], "=") && Find(s, "=").value < Amp(s)
    ensures '=' !in s[..Amp(s)] && '=' in s ==> Find(s, "=").Some? && Amp(s) < Find(s, "=").value
    ensures '=' !in s ==> Find(s, "=") == None
  {
    AmpIsFirst(s);
    FirstIn(s, Amp(s));
  }

  lemma FirstIn(s: string, n: nat)
    requires n <= |s| && (n < |s| ==> s[n] != '=')
    ensures '=' in s[..n] ==> Find(s, "=").Some? && Find(s, "=") == Find(s[..n], "=") && Find(s, "=").value < n
    ensures '=' !in s[..n] && '=' in s ==> Find(s, "=").Some? && n < Find(s, "=").value
    ensures '=' !in s ==> Find(s, "=") == None
  {
    hide Find;
    var a := s[..n];
    if '=' in a {
      assert Find(a, "=").Some?;
      var i := Find(a, "=").value;
      assert s[i] == a[i] && forall j :: 0 <= j < i ==> s[j] == a[j];
      FindIs(s, "=", i);
    } else if '=' in s {
      assert Find(s, "=").Some?;
      assert forall k :: 0 <= k < n ==> s[k] == a[k] && a[k] in a;
    }
  }

  /** Without gaps, scanning makes exactly the assignments of the segments, in order. */
  lemma {:induction false} ScanIsSplit(s: string)
    requires NoGap(Split(s))
    ensures Scan(s) == SegmentPairs(Split(s))
    decreases |s|
  {
    FirstSegment(s);
    SplitHas(s);
    if '=' !in s {
      NoPairs(Split(s));
    } else if Amp(s) == |s| {
      assert s[..Amp(s)] == s && SegmentPairs(Split(s)) == SegmentPair(s) + SegmentPairs([]);
    } else {
      var a, b := SplitTwo(s);
      ScanIsSplit(b);
      assert SegmentPairs(Split(s)) == SegmentPair(a) + SegmentPairs(Split(b));
      ScanFirst(s);
    }
  }

  lemma ScanFirst(s: string)
    requires Amp(s) < |s| && '=' in s[..Amp(s)]
    ensures Scan(s) == SegmentPair(s[..Amp(s)]) + Scan(s[Amp(s) + 1..])
  {
    hide Find, Amp, Scan;
    FirstSegment(s);
    var eq, n := Find(s, "=").value, Amp(s);
    ScanStep(s, eq, n);
    assert s[..n][..eq] == s[..eq] && s[..n][eq + 1..] == s[eq + 1..n];
  }

  lemma {:induction false} NoPairs(segs: seq<string>)
    requires !AnyHas(segs)
    ensures SegmentPairs(segs) == []
  {
    if segs != [] {
      NoPairs(segs[1..]);
    }
  }

  /** With a gap, scanning assigns to a key that contains an `&`. */
  lemma {:induction false} GapMakesBadKey(s: string) returns (i: nat)
    requires !NoGap(Split(s))
    ensures i < |Scan(s)| && '&' in Scan(s)[i].key
    decreases |s|
  {
    hide Find, Amp, Scan, Split, NoGap, SegmentPair;
    var a, b := SplitAtGap(s);
    if '=' in a {
      i := GapMakesBadKey(b);
      ScanFirst(s);
      i := |SegmentPair(a)| + i;
    } else {
      SplitHas(b);
      FirstSegment(s);
      KeyAcrossAmp(s);
      i := 0;
    }
  }

  /** A gap lies between the first segment and a later one, or among the later ones. */
  lemma SplitAtGap(s: string) returns (a: string, b: string)
    requires !NoGap(Split(s))
    ensures Amp(s) < |s| && a == s[..Amp(s)] && b == s[Amp(s) + 1..] && s == a + "&" + b
    ensures if '=' in a then !NoGap(Split(b)) else AnyHas(Split(b))
  {
    hide Find, Amp;
    a, b := SplitTwo(s);
    GapHasLater(Split(b));
  }

  lemma KeyAcrossAmp(s: string)
    requires Find(s, "=").Some? && Amp(s) < Find(s, "=").value
    ensures Scan(s) != [] && '&' in Scan(s)[0].key
  {
    AmpIsFirst(s);
    hide Find, Amp;
    assert Scan(s)[0].key[Amp(s)] == '&';
  }

  lemma {:induction false} GapHasLater(segs: seq<string>)
    ensures !NoGap(segs) ==> AnyHas(segs)
  {
    if segs != [] {
      GapHasLater(segs[1..]);
    }
  }

  lemma {:induction false} SegmentKeys(s: string)
    ensures forall i :: 0 <= i < |SegmentPairs(Split(s))| ==> '&' !in SegmentPairs(Split(s))[i].key
    decreases |s|
  {
    if Amp(s) == |s| {
      assert SegmentPairs(Split(s)) == SegmentPair(s) + SegmentPairs([]);
    } else {
      SegmentKeys(s[Amp(s) + 1..]);
      assert Split(s)[1..] == Split(s[Amp(s) + 1..]);
    }
  }

  lemma {:induction false} FoldKeys(m: map<string, string>, ps: seq<Pair>, k: string)
    ensures k in Fold(m, ps) <==> k in m || exists i :: 0 <= i < |ps| && ps[i].key == k
    decreases |ps|
  {
    if ps != [] {
      FoldKeys(m[ps[0].key := ps[0].value], ps[1..], k);
      if i :| 0 <= i < |ps[1..]| && ps[1..][i].key == k {
        assert ps[i + 1].key == k;
      }
      if i :| 0 < i < |ps| && ps[i].key == k {
        assert ps[1..][i - 1].key == k;
      }
    }
  }

  /** `searchpart` is split-and-fold if and only if no segment without `=` precedes one with it. */
  lemma ScanMeansSplitExactly(s: string)
    ensures Fold(map[], Scan(s)) == Fold(map[], SegmentPairs(Split(s))) <==> NoGap(Split(s))
  {
    if NoGap(Split(s)) {
      ScanIsSplit(s);
    } else {
      var i := GapMakesBadKey(s);
      var k := Scan(s)[i].key;
      FoldKeys(map[], Scan(s), k);
      FoldKeys(map[], SegmentPairs(Split(s)), k);
      SegmentKeys(s);
      assert k in Fold(map[], Scan(s)) && k !in Fold(map[], SegmentPairs(Split(s)));
    }
  }

  lemma FirstBehind(before: string, c: char, rest: string)
    requires c !in before
    ensures Find(before + [c] + rest, [c]) == Some(|before|)
  {
    hide Find;
    var s := before + [c] + rest;
    assert forall i :: 0 <= i < |before| ==> s[i] == before[i] && s[i] in before;
    assert s[|before|] == c;
    FindIs(s, [c], |before|);
  }

  /** Where no `=` stands before the first `&`, the key runs across it to the next `=`, and the value
      to the end of the text; scanning then goes on behind the `&`. */
  lemma ScanAcrossAmp(a: string, b: string, rest: string)
    requires '&' !in a && '=' !in a && '=' !in b
    ensures Scan(a + "&" + b + "=" + rest) == [Pair(a + "&" + b, rest)] + Scan(b + "=" + rest)
  {
    hide Find, Scan;
    var key, more := a + "&" + b, b + "=" + rest;
    var s := key + "=" + rest;
    assert s == a + "&" + more;
    FirstBehind(a, '&', more);
    FirstBehind(key, '=', rest);
    ScanStep(s, |key|, |s|);
    assert s[..|key|] == key && s[|key| + 1..|s|] == rest && s[|a| + 1..] == more;
  }

  /** The pieces between the `&`s, put together again. */
  function Unsplit(segs: seq<string>): string {
    if segs == [] then [] else if |segs| == 1 then segs[0] else segs[0] + "&" + Unsplit(segs[1..])
  }

  /** Splitting loses nothing and leaves no `&` in a segment. */
  lemma {:induction false} SplitExactly(s: string)
    ensures Split(s) != [] && Unsplit(Split(s)) == s
    ensures forall i :: 0 <= i < |Split(s)| ==> '&' !in Split(s)[i]
    decreases |s|
  {
    AmpIsFirst(s);
    if Amp(s) == |s| {
      assert s[..Amp(s)] == s;
    } else {
      hide Amp;
      var a, b := SplitTwo(s);
      SplitExactly(b);
      assert Split(s) == [a] + Split(b);
    }
  }

  /** A key is in the map exactly when it was assigned, and has the value assigned last. */
  lemma {:induction false} FoldIsLastWins(m: map<string, string>, ps: seq<Pair>, i: nat)
    requires i < |ps| && forall j :: i < j < |ps| ==> ps[j].key != ps[i].key
    ensures ps[i].key in Fold(m, ps) && Fold(m, ps)[ps[i].key] == ps[i].value
    decreases |ps|
  {
    var m' := m[ps[0].key := ps[0].value];
    if i == 0 {
      FoldLeaves(m', ps[1..], ps[0].key);
    } else {
      assert ps[1..][i - 1] == ps[i];
      FoldIsLastWins(m', ps[1..], i - 1);
    }
  }

  lemma {:induction false} FoldLeaves(m: map<string, string>, ps: seq<Pair>, k: string)
    requires k in m && forall j :: 0 <= j < |ps| ==> ps[j].key != k
    ensures k in Fold(m, ps) && Fold(m, ps)[k] == m[k]
    decreases |ps|
  {
    if ps != [] {
      FoldLeaves(m[ps[0].key := ps[0].value], ps[1..], k);
    }
  }

  // ----- Joining -----

  ghost predicate CleanPair(p: Pair) {
    '&' !in p.key && '=' !in p.key && '&' !in p.value
  }

  function Joined(p: Pair): string {
    p.key + "=" + p.value
  }

  function Join(ps: seq<Pair>): string {
    if ps == [] then []
    else if |ps| == 1 then Joined(ps[0])
    else Joined(ps[0]) + "&" + Join(ps[1..])
  }

  lemma LastSegment(p: Pair)
    requires CleanPair(p)
    ensures Scan(Joined(p)) == [p]
  {
    var s := Joined(p);
    KeyEnds(p, "");
    assert s + "" == s;
    assert '&' !in s;
    assert Find(s, "&") == None;
    assert s[..|p.key|] == p.key && s[|p.key| + 1..|s|] == p.value;
    assert Scan([]) == [];
  }

  lemma KeyEnds(p: Pair, more: string)
    requires CleanPair(p)
    ensures Find(Joined(p) + more, "=") == Some(|p.key|)
  {
    hide Find;
    var s := Joined(p) + more;
    assert s == p.key + ("=" + p.value + more);
    assert forall i :: 0 <= i < |p.key| ==> s[i] == p.key[i] && s[i] in p.key;
    FindIs(s, "=", |p.key|);
  }

  lemma ValueEnds(p: Pair, more: string)
    requires CleanPair(p)
    ensures Find(Joined(p) + "&" + more, "&") == Some(|Joined(p)|)
  {
    hide Find;
    var seg := Joined(p);
    var s := seg + "&" + more;
    assert '&' !in seg;
    assert forall i :: 0 <= i < |seg| ==> s[i] == seg[i] && s[i] in seg;
    FindIs(s, "&", |seg|);
  }

  lemma JoinedSegment(p: Pair, more: string)
    requires CleanPair(p)
    ensures Scan(Joined(p) + "&" + more) == [p] + Scan(more)
  {
    hide Find;
    var seg := Joined(p);
    var s := seg + "&" + more;
    assert s == seg + ("&" + more);
    KeyEnds(p, "&" + more);
    ValueEnds(p, more);
    assert s[..|p.key|] == p.key && s[|p.key| + 1..|seg|] == p.value && s[|seg| + 1..] == more;
    assert Amp(s) == |seg| && AfterAmp(s) == more;
  }

  lemma {:induction false} ScanJoin(ps: seq<Pair>)
    requires forall i :: 0 <= i < |ps| ==> CleanPair(ps[i])
    ensures Scan(Join(ps)) == ps
  {
    if |ps| == 1 {
      LastSegment(ps[0]);
    } else if |ps| > 1 {
      JoinedSegment(ps[0], Join(ps[1..]));
      ScanJoin(ps[1..]);
      assert ps == [ps[0]] + ps[1..];
    }
  }

  /** A path without `?` and clean pairs, joined and parsed again, give the path and the map in
      which the last value of each key wins. */
  lemma JoinThenParse(path: string, ps: seq<Pair>)
    requires '?' !in path && forall i :: 0 <= i < |ps| ==> CleanPair(ps[i])
    ensures Parsed(path + "?" + Join(ps)) == URL(path, Fold(map[], ps))
    ensures Parsed(path) == URL(path, map[])
  {
    QuestionMark(path, Join(ps));
    hide Find, Join, Scan;
    ScanJoin(ps);
    NoMorePairs(map[], []);
    assert Find(path, "?") == None;
  }

  lemma QuestionMark(path: string, query: string)
    requires '?' !in path
    ensures var s := path + "?" + query; PathOf(s) == path && From(s, |path| + 1) == query
  {
    var s := path + "?" + query;
    hide Find;
    assert s[|path|] == '?';
    assert forall i :: 0 <= i < |path| ==> s[i] == path[i] && s[i] in path;
    FindIs(s, "?", |path|);
    assert s[..|path|] == path && From(s, |path| + 1) == query;
  }

  /** What stands behind the first question mark is scanned; without one the map is empty. */
  lemma ParsedExactly(path: string, query: string)
    requires '?' !in path
    ensures Parsed(path) == URL(path, map[])
    ensures Parsed(path + "?" + query) == URL(path, Fold(map[], Scan(query)))
  {
    hide Scan, Fold, Find;
    QuestionMark(path, query);
    NoMorePairs(map[], []);
    assert Find(path, "?") == None;
  }
}
