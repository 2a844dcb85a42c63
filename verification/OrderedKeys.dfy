/**
 * Byte-string keys in the order RocksDB iterates them, and the theory of scans:
 * what a loop that starts at a seek position and stops early still returns.
 */
module OrderedKeys {
  import opened Bytes

  // ---------------------------------------------------------------- order

  /** The bytewise comparator: lexicographic, a proper prefix comes first. */
  predicate Less(a: Bytes, b: Bytes) {
    b != [] && (a == [] || a[0] < b[0] || (a[0] == b[0] && Less(a[1..], b[1..])))
  }

  lemma {:induction false} LessIsTotal(a: Bytes, b: Bytes)
    ensures Less(a, b) || Less(b, a) || a == b
    ensures !(Less(a, b) && Less(b, a))
    ensures a == b ==> !Less(a, b)
  {
    if a != [] && b != [] {
      LessIsTotal(a[1..], b[1..]);
      assert a == [a[0]] + a[1..] && b == [b[0]] + b[1..];
    }
  }

  lemma {:induction false} LessIsTransitive(a: Bytes, b: Bytes, c: Bytes)
    requires Less(a, b) && Less(b, c)
    ensures Less(a, c)
  {
    if a != [] && a[0] == b[0] == c[0] {
      LessIsTransitive(a[1..], b[1..], c[1..]);
    }
  }

  /** Concatenated fixed-width fields compare field by field. */
  lemma {:induction false} LessConcat(a: Bytes, x: Bytes, b: Bytes, y: Bytes)
    requires |a| == |b|
    ensures Less(a + x, b + y) <==> Less(a, b) || (a == b && Less(x, y))
  {
    if a == [] {
      assert a + x == x && b + y == y;
    } else {
      LessConcat(a[1..], x, b[1..], y);
      assert (a + x)[1..] == a[1..] + x && (b + y)[1..] == b[1..] + y;
      assert a == [a[0]] + a[1..] && b == [b[0]] + b[1..];
    }
  }

  /** Big-endian fields of one width compare as the numbers they hold. */
  lemma {:induction false} LessIsNumeric(a: Bytes, b: Bytes)
    requires |a| == |b|
    ensures Less(a, b) <==> ValueBE(a) < ValueBE(b)
    ensures a == b <==> ValueBE(a) == ValueBE(b)
  {
    if a != [] {
      var n := |a| - 1;
      LessIsNumeric(a[..n], b[..n]);
      LessConcat(a[..n], a[n..], b[..n], b[n..]);
      assert a[..n] + a[n..] == a && b[..n] + b[n..] == b;
      assert a[n..] == [a[n]] && b[n..] == [b[n]];
    }
  }

  // ---------------------------------------------------------------- enumeration

  ghost predicate Sorted(s: seq<Bytes>) {
    forall i, j :: 0 <= i < j < |s| ==> Less(s[i], s[j])
  }

  predicate IsLeast(k: Bytes, keys: set<Bytes>) {
    k in keys && forall x :: x in keys ==> x == k || Less(k, x)
  }

  lemma {:induction false} LeastExists(keys: set<Bytes>)
    requires keys != {}
    ensures exists k :: IsLeast(k, keys)
  {
    var k :| k in keys;
    var rest := keys - {k};
    if rest == {} {
      assert keys == {k};
      assert IsLeast(k, keys);
    } else {
      LeastExists(rest);
      var m :| IsLeast(m, rest);
      LessIsTotal(k, m);
      if Less(m, k) {
        assert IsLeast(m, keys);
      } else {
        forall x | x in rest && x != m ensures Less(k, x) { LessIsTransitive(k, m, x); }
        assert IsLeast(k, keys);
      }
    }
  }

  lemma {:induction false} LeastIsUnique(j: Bytes, k: Bytes, keys: set<Bytes>)
    requires IsLeast(j, keys) && IsLeast(k, keys)
    ensures j == k
  {
    LessIsTotal(j, k);
  }

  function Least(keys: set<Bytes>): (k: Bytes)
    requires keys != {}
    ensures IsLeast(k, keys)
  {
    LeastExists(keys);
    assert forall j, k :: IsLeast(j, keys) && IsLeast(k, keys) ==> j == k by {
      forall j, k | IsLeast(j, keys) && IsLeast(k, keys) ensures j == k { LeastIsUnique(j, k, keys); }
    }
    var k :| k in keys && IsLeast(k, keys);
    k
  }

  /** The keys of a column family as a full iteration visits them. */
  function Ascending(keys: set<Bytes>): seq<Bytes>
    decreases |keys|
  {
    if keys == {} then []
    else
      var k := Least(keys);
      [k] + Ascending(keys - {k})
  }

  lemma {:induction false} AscendingMembers(keys: set<Bytes>)
    ensures forall k :: k in Ascending(keys) <==> k in keys
    ensures |Ascending(keys)| == |keys|
    decreases |keys|
  {
    if keys != {} {
      AscendingMembers(keys - {Least(keys)});
    }
  }

  lemma {:induction false} AscendingSorted(keys: set<Bytes>)
    ensures Sorted(Ascending(keys))
    decreases |keys|
  {
    if keys != {} {
      var k := Least(keys);
      AscendingMembers(keys - {k});
      AscendingSorted(keys - {k});
      var rest := Ascending(keys - {k});
      forall i | 0 <= i < |rest| ensures Less(k, rest[i]) {
        assert rest[i] in rest;
      }
    }
  }

  /** A strictly ascending list is determined by the keys in it. */
  lemma {:induction false} SortedIsUnique(a: seq<Bytes>, b: seq<Bytes>)
    requires Sorted(a) && Sorted(b)
    requires forall k :: k in a <==> k in b
    ensures a == b
  {
    if a != [] {
      assert a[0] in a && a[0] in b;
    }
    if b != [] {
      assert b[0] in b && b[0] in a;
      assert a[0] in a && a[0] in b;
      LessIsTotal(a[0], b[0]);
      assert a[0] == b[0];
      forall k ensures k in a[1..] <==> k in b[1..] {
        LessIsTotal(k, k);
        assert a == [a[0]] + a[1..] && b == [b[0]] + b[1..];
        if k == a[0] {
          assert k !in a[1..] && k !in b[1..];
        } else {
          assert k in a <==> k in a[1..];
          assert k in b <==> k in b[1..];
        }
      }
      SortedIsUnique(a[1..], b[1..]);
      assert a == [a[0]] + a[1..] && b == [b[0]] + b[1..];
    }
  }

  lemma {:induction false} SortedSize(s: seq<Bytes>)
    requires Sorted(s)
    ensures |set k | k in s| == |s|
  {
    if s != [] {
      var init, last := s[..|s| - 1], s[|s| - 1];
      SortedSize(init);
      assert s == init + [last];
      assert (set k | k in s) == (set k | k in init) + {last};
      LessIsTotal(last, last);
      forall i | 0 <= i < |init| ensures init[i] != last { assert Less(s[i], s[|s| - 1]); }
    }
  }

  // ---------------------------------------------------------------- scans

  type Test = Bytes -> bool

  function Filter(s: seq<Bytes>, p: Test): seq<Bytes> {
    if s == [] then []
    else
      var init, k := s[..|s| - 1], s[|s| - 1];
      if p(k) then Filter(init, p) + [k] else Filter(init, p)
  }

  function AtLeast(start: Bytes): Test { (k: Bytes) => !Less(k, start) }

  function AtMost(start: Bytes): Test { (k: Bytes) => !Less(start, k) }

  function HasPrefix(prefix: Bytes): Test { (k: Bytes) => prefix <= k }

  /** `IteratorMode::From(start, Direction::Forward)`. */
  function Forward(keys: set<Bytes>, start: Bytes): seq<Bytes> {
    Filter(Ascending(keys), AtLeast(start))
  }

  function Reverse<T>(s: seq<T>): seq<T>
  {
    seq(|s|, i requires 0 <= i < |s| => s[|s| - 1 - i])
  }

  /** `IteratorMode::From(start, Direction::Reverse)`. */
  function Backward(keys: set<Bytes>, start: Bytes): seq<Bytes> {
    Reverse(Filter(Ascending(keys), AtMost(start)))
  }

  lemma {:induction false} FilterMembers(s: seq<Bytes>, p: Test)
    ensures forall k :: k in Filter(s, p) <==> k in s && p(k)
  {
    if s != [] {
      var init, k := s[..|s| - 1], s[|s| - 1];
      assert s == init + [k];
      FilterMembers(init, p);
    }
  }

  lemma {:induction false} FilterSorted(s: seq<Bytes>, p: Test)
    requires Sorted(s)
    ensures Sorted(Filter(s, p))
  {
    if s != [] {
      var init, k := s[..|s| - 1], s[|s| - 1];
      FilterSorted(init, p);
      FilterMembers(init, p);
      forall i | 0 <= i < |Filter(init, p)| ensures Less(Filter(init, p)[i], k) {
        assert Filter(init, p)[i] in init;
      }
    }
  }

  /** A filter of the ordered keys is the one ascending list of the keys that pass. */
  lemma {:induction false} FilterSpec(keys: set<Bytes>, p: Test)
    ensures Sorted(Filter(Ascending(keys), p))
    ensures forall k :: k in Filter(Ascending(keys), p) <==> k in keys && p(k)
  {
    AscendingMembers(keys);
    AscendingSorted(keys);
    FilterMembers(Ascending(keys), p);
    FilterSorted(Ascending(keys), p);
  }

  lemma {:induction false} ForwardMembers(keys: set<Bytes>, start: Bytes)
    ensures forall k :: k in Forward(keys, start) <==> k in keys && !Less(k, start)
  {
    AscendingMembers(keys);
    FilterMembers(Ascending(keys), AtLeast(start));
  }

  lemma {:induction false} FilterAppend(s: seq<Bytes>, t: seq<Bytes>, p: Test)
    ensures Filter(s + t, p) == Filter(s, p) + Filter(t, p)
  {
    if t == [] {
      assert s + t == s;
    } else {
      var init := t[..|t| - 1];
      assert (s + t)[..|s + t| - 1] == s + init;
      FilterAppend(s, init, p);
    }
  }

  lemma {:induction false} FilterStep(s: seq<Bytes>, i: nat, p: Test)
    requires i < |s|
    ensures Filter(s[..i + 1], p) == Filter(s[..i], p) + (if p(s[i]) then [s[i]] else [])
  {
    assert s[..i + 1][..i] == s[..i];
  }

  lemma {:induction false} FilterNone(s: seq<Bytes>, p: Test)
    requires forall k :: k in s ==> !p(k)
    ensures Filter(s, p) == []
  {
    FilterMembers(s, p);
    assert Filter(s, p) != [] ==> Filter(s, p)[0] in Filter(s, p);
  }

  /** What a scan looks for is unaffected by skipping keys before the seek position. */
  lemma {:induction false} SeekLosesNothing(keys: set<Bytes>, start: Bytes, p: Test)
    requires forall k :: k in keys && p(k) ==> !Less(k, start)
    ensures Filter(Forward(keys, start), p) == Filter(Ascending(keys), p)
  {
    FilterSpec(keys, AtLeast(start));
    FilterMembers(Forward(keys, start), p);
    FilterSorted(Forward(keys, start), p);
    FilterSpec(keys, p);
    SortedIsUnique(Filter(Forward(keys, start), p), Filter(Ascending(keys), p));
  }

  lemma {:induction false} SeekSplit(keys: set<Bytes>, start: Bytes, p: Test, n: nat)
    requires forall k :: k in keys && p(k) ==> !Less(k, start)
    requires n <= |Forward(keys, start)|
    ensures Filter(Ascending(keys), p) == Filter(Forward(keys, start)[..n], p) + Filter(Forward(keys, start)[n..], p)
  {
    var it := Forward(keys, start);
    SeekLosesNothing(keys, start, p);
    FilterAppend(it[..n], it[n..], p);
    assert it == it[..n] + it[n..];
  }

  /** A scan may stop at a key after which nothing can match. */
  ghost predicate NoMatchFrom(keys: set<Bytes>, stop: Bytes, p: Test) {
    forall k :: k in keys && (k == stop || Less(stop, k)) ==> !p(k)
  }

  lemma {:induction false} TailHasNone(keys: set<Bytes>, it: seq<Bytes>, n: nat, p: Test)
    requires Sorted(it) && n <= |it|
    requires forall k :: k in it ==> k in keys
    requires n < |it| ==> NoMatchFrom(keys, it[n], p)
    ensures Filter(it[..n], p) == Filter(it, p)
  {
    forall k | k in it[n..] ensures !p(k) {
      var j :| 0 <= j < |it[n..]| && it[n..][j] == k;
      assert k == it[n + j] && k in it;
    }
    FilterNone(it[n..], p);
    FilterAppend(it[..n], it[n..], p);
    assert it == it[..n] + it[n..];
  }

  /**
   * The early-stopping scan: it seeks to `start`, looks at `n` keys, and either
   * ran out or met a key after which nothing matches. It saw every match.
   */
  lemma {:induction false} EarlyStop(keys: set<Bytes>, start: Bytes, n: nat, p: Test)
    requires forall k :: k in keys && p(k) ==> !Less(k, start)
    requires n <= |Forward(keys, start)|
    requires n < |Forward(keys, start)| ==> NoMatchFrom(keys, Forward(keys, start)[n], p)
    ensures Filter(Forward(keys, start)[..n], p) == Filter(Ascending(keys), p)
  {
    FilterSpec(keys, AtLeast(start));
    TailHasNone(keys, Forward(keys, start), n, p);
    SeekLosesNothing(keys, start, p);
  }

  lemma {:induction false} FilterAll(s: seq<Bytes>, p: Test)
    requires forall k :: k in s ==> p(k)
    ensures Filter(s, p) == s
  {
    if s != [] {
      FilterAll(s[..|s| - 1], p);
      assert s == s[..|s| - 1] + [s[|s| - 1]];
    }
  }

  lemma {:induction false} SuffixIsFilter(s: seq<Bytes>, m: nat, p: Test)
    requires m <= |s|
    requires forall i :: 0 <= i < m ==> !p(s[i])
    requires forall i :: m <= i < |s| ==> p(s[i])
    ensures s[m..] == Filter(s, p)
  {
    FilterNone(s[..m], p);
    FilterAll(s[m..], p);
    FilterAppend(s[..m], s[m..], p);
    assert s == s[..m] + s[m..];
  }

  lemma {:induction false} FilterBelow(keys: set<Bytes>, start: Bytes, p: Test)
    requires forall k :: k in keys && p(k) ==> !Less(start, k)
    ensures Filter(Filter(Ascending(keys), AtMost(start)), p) == Filter(Ascending(keys), p)
  {
    var below := Filter(Ascending(keys), AtMost(start));
    FilterSpec(keys, AtMost(start));
    FilterMembers(below, p);
    FilterSorted(below, p);
    FilterSpec(keys, p);
    SortedIsUnique(Filter(below, p), Filter(Ascending(keys), p));
  }

  /** The same for a reverse scan, where nothing matches at or before the stop key. */
  ghost predicate NoMatchUpTo(keys: set<Bytes>, stop: Bytes, p: Test) {
    forall k :: k in keys && (k == stop || Less(k, stop)) ==> !p(k)
  }

  lemma {:induction false} ReversePrefix(s: seq<Bytes>, m: nat)
    requires m <= |s|
    ensures Reverse(s)[..|s| - m] == Reverse(s[m..])
  {
  }

  lemma {:induction false} BackwardSplit(below: seq<Bytes>, n: nat, p: Test)
    requires Sorted(below) && n <= |below|
    requires forall i :: 0 <= i < n ==> p(Reverse(below)[i])
    requires n < |below| ==> forall k :: k in below && (k == Reverse(below)[n] || Less(k, Reverse(below)[n])) ==> !p(k)
    ensures Reverse(below)[..n] == Reverse(Filter(below, p))
  {
    var m := |below| - n;
    forall i | m <= i < |below| ensures p(below[i]) {
      assert below[i] == Reverse(below)[|below| - 1 - i];
    }
    forall i | 0 <= i < m ensures !p(below[i]) {
      assert Reverse(below)[n] == below[m - 1] && below[i] in below;
    }
    SuffixIsFilter(below, m, p);
    ReversePrefix(below, m);
  }

  lemma {:induction false} EarlyStopBackward(keys: set<Bytes>, start: Bytes, n: nat, p: Test)
    requires forall k :: k in keys && p(k) ==> !Less(start, k)
    requires n <= |Backward(keys, start)|
    requires n < |Backward(keys, start)| ==> NoMatchUpTo(keys, Backward(keys, start)[n], p)
    requires forall i :: 0 <= i < n ==> p(Backward(keys, start)[i])
    ensures Backward(keys, start)[..n] == Reverse(Filter(Ascending(keys), p))
  {
    var below := Filter(Ascending(keys), AtMost(start));
    FilterSpec(keys, AtMost(start));
    BackwardSplit(below, n, p);
    FilterBelow(keys, start, p);
  }
}
