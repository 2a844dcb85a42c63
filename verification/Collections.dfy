/** Sets of 16-bit numbers listed in order, and facts about sizes and concatenation that several modules use. */
module Collections {
  import opened Bytes

  // ---------------------------------------------------------------- sorting a set

  predicate IsLeast(c: u16, s: set<u16>) {
    c in s && forall x :: x in s ==> c <= x
  }

  lemma {:induction false} LeastExists(s: set<u16>)
    requires s != {}
    ensures exists c :: IsLeast(c, s)
  {
    var c :| c in s;
    var rest := s - {c};
    if rest == {} {
      assert s == {c};
      assert IsLeast(c, s);
    } else {
      LeastExists(rest);
      var m :| IsLeast(m, rest);
      forall x | x in s ensures c <= x || m <= x { assert x == c || x in rest; }
      var least := if c <= m then c else m;
      assert IsLeast(least, s);
    }
  }

  function Least(s: set<u16>): (c: u16)
    requires s != {}
    ensures IsLeast(c, s)
  {
    LeastExists(s);
    var c :| c in s && IsLeast(c, s);
    c
  }

  /** `collect` then sort. */
  function SortedList(s: set<u16>): seq<u16>
    decreases |s|
  {
    if s == {} then []
    else
      var c := Least(s);
      [c] + SortedList(s - {c})
  }

  ghost predicate Increasing(r: seq<u16>) {
    forall i, j :: 0 <= i < j < |r| ==> r[i] < r[j]
  }

  lemma {:induction false} IncreasingCons(c: u16, rest: seq<u16>)
    requires Increasing(rest) && forall i :: 0 <= i < |rest| ==> c < rest[i]
    ensures Increasing([c] + rest)
  {
  }

  lemma {:induction false} SortedListSpec(s: set<u16>)
    ensures |SortedList(s)| == |s|
    ensures forall c :: c in SortedList(s) <==> c in s
    ensures Increasing(SortedList(s))
    decreases |s|
  {
    if s != {} {
      var c := Least(s);
      SortedListSpec(s - {c});
      var rest := SortedList(s - {c});
      forall i | 0 <= i < |rest| ensures c < rest[i] {
        assert rest[i] in rest && rest[i] in s - {c};
      }
      IncreasingCons(c, rest);
    }
  }

  // ---------------------------------------------------------------- sizes and concatenation

  lemma {:induction false} SubsetSize<T>(a: set<T>, b: set<T>)
    requires a <= b
    ensures |a| <= |b| && (|a| == |b| <==> b <= a)
  {
    assert b == a + (b - a);
    assert |b| == |a| + |b - a|;
    if |a| == |b| { assert b - a == {}; }
  }

  lemma {:induction false} HeadAndTail<T>(s: seq<T>, more: seq<T>)
    requires s != []
    ensures [s[0]] + (s[1..] + more) == s + more
  {
  }

  lemma {:induction false} ConcatAssociates<T>(x: seq<T>, y: seq<T>, z: seq<T>)
    ensures x + (y + z) == (x + y) + z
  {
  }
}
