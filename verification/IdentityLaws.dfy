/** What the characters of an identity and the bytes of a key are, one by one. */
module IdentityLaws {
  import opened Bytes
  import opened Identity

  // ---------------------------------------------------------------- letters are digits

  lemma {:induction false} QuotientIs(n: nat, d: nat, q: nat, r: nat)
    requires n == d * q + r && r < d
    ensures n / d == q
  {
    var q', r' := n / d, n % d;
    assert n == d * q' + r';
    if q' > q {
      Apart(d, q, q');
    } else if q' < q {
      Apart(d, q', q);
    }
  }

  lemma {:induction false} Apart(d: nat, a: nat, b: nat)
    requires a < b
    ensures d * b >= d * a + d
  {
    assert d * b == d * a + d * (b - a);
    AtLeastOne(d, b - a);
  }

  lemma {:induction false} AtLeastOne(d: nat, k: nat)
    requires k >= 1
    ensures d * k >= d
  {
  }

  /** Dividing by 26 and then by `p` is dividing by 26 `p`. */
  lemma {:induction false} DivideTwice(n: nat, p: nat)
    requires p >= 1
    ensures n / 26 / p == n / (26 * p)
  {
    var s, q, r := n % 26, n / 26 / p, n / 26 % p;
    assert n == 26 * (n / 26) + s;
    assert n / 26 == p * q + r;
    assert 26 * (p * q) == (26 * p) * q;
    QuotientIs(n, 26 * p, q, 26 * r + s);
  }

  lemma {:induction false} Pow26Positive(w: nat)
    ensures Pow26(w) >= 1
  {
    if w > 0 { Pow26Positive(w - 1); }
  }

  /** The `j`-th letter is the `j`-th base-26 digit, A for 0 to Z for 25. */
  lemma {:induction false} LetterIsDigit(n: nat, w: nat, j: nat)
    requires j < w
    ensures Pow26(j) >= 1 && Letters(n, w)[j] == 65 + n / Pow26(j) % 26
    decreases j
  {
    Pow26Positive(j);
    if j > 0 {
      LetterIsDigit(n / 26, w - 1, j - 1);
      DivideTwice(n, Pow26(j - 1));
    }
  }

  /** The sum of the digits with their weights, from the last letter down. */
  function WeightedSum(s: Bytes): int {
    if s == [] then 0 else WeightedSum(s[..|s| - 1]) + (s[|s| - 1] as int - 65) * Pow26(|s| - 1)
  }

  predicate Uppercase(s: Bytes) {
    forall i :: 0 <= i < |s| ==> 65 <= s[i] <= 90
  }

  lemma {:induction false} UppercaseIsLetters(s: Bytes)
    ensures AllLetters(s) <==> Uppercase(s)
  {
    if AllLetters(s) {
      forall i | 0 <= i < |s| ensures 65 <= s[i] <= 90 { assert IsLetter(s[i]); }
    }
    if Uppercase(s) {
      forall i | 0 <= i < |s| ensures IsLetter(s[i]) { assert 65 <= s[i] <= 90; }
    }
  }

  lemma {:induction false} ValueSnoc(s: Bytes, c: byte)
    requires 65 <= c <= 90
    ensures Value26(s + [c]) == Value26(s) + (c as int - 65) * Pow26(|s|)
  {
    if s == [] {
      assert [c][1..] == [];
    } else {
      ValueSnoc(s[1..], c);
      assert (s + [c])[1..] == s[1..] + [c];
      var d, p := c as int - 65, Pow26(|s| - 1);
      assert 26 * (d * p) == d * (26 * p);
    }
  }

  lemma {:induction false} ValueIsSum(s: Bytes)
    requires Uppercase(s)
    ensures Value26(s) == WeightedSum(s)
  {
    if s != [] {
      var init, c := s[..|s| - 1], s[|s| - 1];
      assert Uppercase(init);
      ValueIsSum(init);
      ValueSnoc(init, c);
      assert s == init + [c];
    }
  }

  // ---------------------------------------------------------------- encoding, character by character

  /** The 18 low bits of the first three hash bytes, read little-endian. */
  function SuffixValue(hash: Hash, key: Bytes): nat {
    var (a, b, c) := hash(key);
    var x: int, y: int, z: int := a, b, c;
    x + 256 * y + 65536 * (z % 4)
  }

  lemma {:induction false} LowBits(x: int, y: int, z: int)
    requires 0 <= x < 256 && 0 <= y < 256 && 0 <= z < 256
    ensures (x + 256 * y + 65536 * z) % 262144 == x + 256 * y + 65536 * (z % 4)
  {
    var q := z / 4;
    assert x + 256 * y + 65536 * z == 262144 * q + (x + 256 * y + 65536 * (z % 4));
  }

  lemma {:induction false} BitsAreSuffix(hash: Hash, key: Bytes)
    ensures ChecksumBits(hash, key) == SuffixValue(hash, key) < 262144
  {
    var (a, b, c) := hash(key);
    LowBits(a, b, c);
  }

  /** Character `14 i + j` is digit `j` of the `i`-th eight key bytes, read little-endian. */
  lemma {:induction false} KeyCharacter(hash: Hash, key: Bytes, i: nat, j: nat)
    requires |key| == 32 && i < 4 && j < 14
    ensures Pow26(j) >= 1
    ensures Encode(hash, key)[14 * i + j] == 65 + ValueLE(key[8 * i..8 * i + 8]) / Pow26(j) % 26
  {
    BodyPart(key, 4, i);
    LetterIsDigit(FragmentOf(key, i), 14, j);
    assert Encode(hash, key)[14 * i + j] == Body(key)[14 * i..14 * i + 14][j];
  }

  /** Character `56 + j` is digit `j` of the 18 hash bits. */
  lemma {:induction false} SuffixCharacter(hash: Hash, key: Bytes, j: nat)
    requires |key| == 32 && j < 4
    ensures Pow26(j) >= 1
    ensures Encode(hash, key)[56 + j] == 65 + SuffixValue(hash, key) / Pow26(j) % 26
  {
    BitsAreSuffix(hash, key);
    LetterIsDigit(ChecksumBits(hash, key), 4, j);
  }

  /** The suffix gives all 18 bits back. */
  lemma {:induction false} SuffixSpellsHash(hash: Hash, key: Bytes)
    requires |key| == 32
    ensures var suffix := Encode(hash, key)[56..]; Uppercase(suffix) && WeightedSum(suffix) == SuffixValue(hash, key)
  {
    var suffix := Encode(hash, key)[56..];
    assert suffix == Checksum(hash, key);
    BitsAreSuffix(hash, key);
    assert Pow26(4) == 456_976;
    LettersInverse(ChecksumBits(hash, key), 4);
    UppercaseIsLetters(suffix);
    ValueIsSum(suffix);
  }

  // ---------------------------------------------------------------- decoding

  /** The letters spell the key: each eight bytes are the value of 14 letters, cut to 64 bits. */
  ghost predicate Spells(s: Bytes, key: Bytes) {
    && |s| >= 56 && |key| == 32
    && forall i :: 0 <= i < 4 ==> ValueLE(key[8 * i..8 * i + 8]) == WeightedSum(s[14 * i..14 * i + 14]) % 0x1_0000_0000_0000_0000
  }

  lemma {:induction false} KeyIsSpelled(s: Bytes)
    requires |s| >= 56 && Uppercase(s[..56])
    ensures Spells(s, KeyOf(s))
  {
    forall i | 0 <= i < 4
      ensures ValueLE(KeyOf(s)[8 * i..8 * i + 8]) == WeightedSum(s[14 * i..14 * i + 14]) % 0x1_0000_0000_0000_0000
    {
      KeyFragments(s, i);
      var letters := LettersOf(s, i);
      forall j | 0 <= j < 14 ensures 65 <= letters[j] <= 90 { assert letters[j] == s[..56][14 * i + j]; }
      ValueIsSum(letters);
    }
  }

  lemma {:induction false} SpelledKeyIsUnique(s: Bytes, a: Bytes, b: Bytes)
    requires Spells(s, a) && Spells(s, b)
    ensures a == b
  {
    forall i | 0 <= i < 4 ensures a[8 * i..8 * i + 8] == b[8 * i..8 * i + 8] {
      ValueLEInverse(a[8 * i..8 * i + 8]);
      ValueLEInverse(b[8 * i..8 * i + 8]);
    }
    forall k | 0 <= k < 32 ensures a[k] == b[k] {
      assert a[8 * (k / 8)..8 * (k / 8) + 8][k % 8] == a[k];
      assert b[8 * (k / 8)..8 * (k / 8) + 8][k % 8] == b[k];
    }
  }

  /**
   * The decoder returns `key` exactly for the strings of 60 characters whose first 56 are upper-case
   * letters that spell the key, and whose last four are the digits of the 18 hash bits of that key.
   */
  lemma {:induction false} DecodeIff(hash: Hash, s: Bytes, key: Bytes)
    ensures Decode(hash, s) == Some(key) <==>
            && |s| == 60 && Uppercase(s[..56]) && Spells(s, key)
            && Uppercase(s[56..]) && WeightedSum(s[56..]) == SuffixValue(hash, key)
  {
    if |s| == 60 {
      UppercaseIsLetters(s[..56]);
      if Uppercase(s[..56]) {
        KeyIsSpelled(s);
        SuffixIff(hash, KeyOf(s), s[56..]);
        if Spells(s, key) { SpelledKeyIsUnique(s, key, KeyOf(s)); }
      }
    }
  }

  lemma {:induction false} SuffixIff(hash: Hash, key: Bytes, suffix: Bytes)
    requires |suffix| == 4
    ensures suffix == Checksum(hash, key) <==> Uppercase(suffix) && WeightedSum(suffix) == SuffixValue(hash, key)
  {
    BitsAreSuffix(hash, key);
    assert Pow26(4) == 456_976;
    LettersInverse(ChecksumBits(hash, key), 4);
    UppercaseIsLetters(Checksum(hash, key));
    ValueIsSum(Checksum(hash, key));
    UppercaseIsLetters(suffix);
    if Uppercase(suffix) {
      ValueIsSum(suffix);
      Value26Inverse(suffix);
    }
  }
}
