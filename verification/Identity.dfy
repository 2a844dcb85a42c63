/**
 * Qubic identities: four 14-letter base-26 fragments of a 32-byte key and a 4-letter checksum.
 * The hash behind the checksum is a parameter: the laws hold for every hash.
 */
module Identity {
  import opened Bytes

  const LETTER_A: byte := 65
  const TWO_64 := 0x1_0000_0000_0000_0000

  /** The first three bytes of the hash of a key. */
  type Hash = Bytes -> (byte, byte, byte)

  // ---------------------------------------------------------------- base 26

  function Pow26(w: nat): nat { if w == 0 then 1 else 26 * Pow26(w - 1) }

  /** The `w` low base-26 digits of `n` as letters, least significant first. */
  function Letters(n: nat, w: nat): (s: Bytes)
    ensures |s| == w
    decreases w, n
  {
    if w == 0 then [] else [LETTER_A + n % 26] + Letters(n / 26, w - 1)
  }

  predicate IsLetter(c: byte) {
    LETTER_A <= c < LETTER_A + 26
  }

  predicate AllLetters(s: Bytes) {
    forall i :: 0 <= i < |s| ==> IsLetter(s[i])
  }

  function Digit(c: byte): nat {
    if IsLetter(c) then c - LETTER_A else 0
  }

  function Value26(s: Bytes): nat {
    if s == [] then 0 else Digit(s[0]) + 26 * Value26(s[1..])
  }

  lemma {:induction false} LettersInverse(n: nat, w: nat)
    requires n < Pow26(w)
    ensures AllLetters(Letters(n, w)) && Value26(Letters(n, w)) == n
  {
    if w > 0 {
      LettersInverse(n / 26, w - 1);
      assert Letters(n, w)[1..] == Letters(n / 26, w - 1);
    }
  }

  lemma {:induction false} DigitStep(d: nat, v: nat)
    requires d < 26
    ensures (d + 26 * v) % 26 == d && (d + 26 * v) / 26 == v
  {
  }

  lemma {:induction false} Value26Inverse(s: Bytes)
    requires AllLetters(s)
    ensures Value26(s) < Pow26(|s|) && Letters(Value26(s), |s|) == s
  {
    if s != [] {
      Value26Inverse(s[1..]);
      DigitStep(Digit(s[0]), Value26(s[1..]));
      assert s == [s[0]] + s[1..];
    }
  }

  /** The accumulator of the decoding loop only ever holds the value of a tail, which is no more than the whole. */
  lemma {:induction false} TailsAreSmaller(s: Bytes, i: nat)
    requires i <= |s|
    ensures Value26(s[i..]) <= Value26(s)
  {
    if i > 0 {
      TailsAreSmaller(s[1..], i - 1);
      assert s[1..][i - 1..] == s[i..];
    }
  }

  // ---------------------------------------------------------------- checksum

  /** 18 bits of the hash. */
  function ChecksumBits(hash: Hash, key: Bytes): nat {
    var (a, b, c) := hash(key);
    (a + 0x100 * b + 0x1_0000 * c) % 0x4_0000
  }

  function Checksum(hash: Hash, key: Bytes): Bytes {
    Letters(ChecksumBits(hash, key), 4)
  }

  /** The four letters hold all 18 bits, because 26^4 exceeds 2^18. */
  lemma {:induction false} ChecksumRecoverable(hash: Hash, key: Bytes)
    ensures Value26(Checksum(hash, key)) == ChecksumBits(hash, key)
  {
    assert Pow26(4) == 456_976;
    LettersInverse(ChecksumBits(hash, key), 4);
  }

  // ---------------------------------------------------------------- the codec

  function FragmentOf(key: Bytes, i: nat): (f: u64)
    requires |key| == 32 && i < 4
  {
    ValueLEInverse(key[8 * i..8 * i + 8]);
    assert Pow256(8) == TWO_64;
    ValueLE(key[8 * i..8 * i + 8])
  }

  function LettersOf(s: Bytes, i: nat): Bytes
    requires |s| >= 56 && i < 4
  {
    s[14 * i..14 * i + 14]
  }

  /** The letters of the first `n` fragments. */
  function BodyUpTo(key: Bytes, n: nat): (s: Bytes)
    requires |key| == 32 && n <= 4
    ensures |s| == 14 * n
  {
    if n == 0 then [] else BodyUpTo(key, n - 1) + Letters(FragmentOf(key, n - 1), 14)
  }

  function Body(key: Bytes): (s: Bytes)
    requires |key| == 32
    ensures |s| == 56
  {
    BodyUpTo(key, 4)
  }

  function Encode(hash: Hash, key: Bytes): (s: Bytes)
    requires |key| == 32
    ensures |s| == 60
  {
    Body(key) + Checksum(hash, key)
  }

  /** u64 arithmetic keeps the residue. */
  function Wrap64(v: nat): u64 {
    if v < TWO_64 then v else v % TWO_64
  }

  /** The 8 key bytes a fragment decodes to, with the loop's u64 arithmetic. */
  function FragmentBytes(letters: Bytes): (b: Bytes)
    ensures |b| == 8
  {
    assert Pow256(8) == TWO_64;
    LE(Wrap64(Value26(letters)), 8)
  }

  /** The bytes of the first `n` fragments. */
  function KeyUpTo(s: Bytes, n: nat): (key: Bytes)
    requires |s| >= 56 && n <= 4
    ensures |key| == 8 * n
  {
    if n == 0 then [] else KeyUpTo(s, n - 1) + FragmentBytes(LettersOf(s, n - 1))
  }

  function KeyOf(s: Bytes): (key: Bytes)
    requires |s| >= 56
    ensures |key| == 32
  {
    KeyUpTo(s, 4)
  }

  function Decode(hash: Hash, s: Bytes): Option<Bytes> {
    if |s| != 60 || !AllLetters(s[..56]) then None
    else if s[56..] != Checksum(hash, KeyOf(s)) then None
    else Some(KeyOf(s))
  }

  // ---------------------------------------------------------------- laws

  lemma {:induction false} FragmentLetters(f: u64)
    ensures AllLetters(Letters(f, 14)) && Value26(Letters(f, 14)) == f
    ensures forall i :: 0 <= i <= 14 ==> Value26(Letters(f, 14)[i..]) < TWO_64
  {
    assert Pow26(14) == 64509974703297150976;
    LettersInverse(f, 14);
    forall i | 0 <= i <= 14 ensures Value26(Letters(f, 14)[i..]) < TWO_64 {
      TailsAreSmaller(Letters(f, 14), i);
    }
  }

  lemma {:induction false} BodyPart(key: Bytes, n: nat, i: nat)
    requires |key| == 32 && i < n <= 4
    ensures BodyUpTo(key, n)[14 * i..14 * i + 14] == Letters(FragmentOf(key, i), 14)
  {
    var init := BodyUpTo(key, n - 1);
    if i < n - 1 {
      BodyPart(key, n - 1, i);
      assert BodyUpTo(key, n)[14 * i..14 * i + 14] == init[14 * i..14 * i + 14];
    }
  }

  lemma {:induction false} KeyPart(s: Bytes, n: nat, i: nat)
    requires |s| >= 56 && i < n <= 4
    ensures KeyUpTo(s, n)[8 * i..8 * i + 8] == FragmentBytes(LettersOf(s, i))
  {
    var init := KeyUpTo(s, n - 1);
    if i < n - 1 {
      KeyPart(s, n - 1, i);
      assert KeyUpTo(s, n)[8 * i..8 * i + 8] == init[8 * i..8 * i + 8];
    }
  }

  lemma {:induction false} BodyFragments(key: Bytes, s: Bytes, i: nat)
    requires |key| == 32 && |s| >= 56 && s[..56] == Body(key) && i < 4
    ensures LettersOf(s, i) == Letters(FragmentOf(key, i), 14)
  {
    BodyPart(key, 4, i);
    assert LettersOf(s, i) == s[..56][14 * i..14 * i + 14];
  }

  lemma {:induction false} FragmentBytesOf(letters: Bytes, v: u64)
    requires Value26(letters) == v
    ensures v < Pow256(8) && FragmentBytes(letters) == LE(v, 8)
  {
    assert Pow256(8) == TWO_64;
  }

  lemma {:induction false} FragmentBytesInverse(b: Bytes)
    requires |b| == 8
    ensures ValueLE(b) < TWO_64
    ensures AllLetters(Letters(ValueLE(b), 14)) && FragmentBytes(Letters(ValueLE(b), 14)) == b
  {
    assert Pow256(8) == TWO_64;
    ValueLEInverse(b);
    FragmentLetters(ValueLE(b));
    FragmentBytesOf(Letters(ValueLE(b), 14), ValueLE(b));
  }

  lemma {:induction false} FragmentRoundTrip(key: Bytes, letters: Bytes, i: nat)
    requires |key| == 32 && i < 4 && letters == Letters(FragmentOf(key, i), 14)
    ensures AllLetters(letters) && FragmentBytes(letters) == key[8 * i..8 * i + 8]
  {
    FragmentBytesInverse(key[8 * i..8 * i + 8]);
  }

  lemma {:induction false} LettersByFragment(s: Bytes)
    requires |s| == 56
    ensures AllLetters(s) <==> forall i :: 0 <= i < 4 ==> AllLetters(LettersOf(s, i))
  {
    if forall i :: 0 <= i < 4 ==> AllLetters(LettersOf(s, i)) {
      forall j | 0 <= j < 56 ensures IsLetter(s[j]) {
        assert AllLetters(LettersOf(s, j / 14));
        assert s[j] == LettersOf(s, j / 14)[j % 14];
      }
    }
    if AllLetters(s) {
      forall i | 0 <= i < 4 ensures AllLetters(LettersOf(s, i)) {
        forall j | 0 <= j < 14 ensures IsLetter(LettersOf(s, i)[j]) { assert LettersOf(s, i)[j] == s[14 * i + j]; }
      }
    }
  }

  lemma {:induction false} JoinSlices(key: Bytes, a: nat, b: nat)
    requires a <= b <= |key|
    ensures key[..a] + key[a..b] == key[..b]
  {
  }

  lemma {:induction false} FragmentsJoin(key: Bytes, s: Bytes, n: nat)
    requires |key| == 32 && |s| >= 56 && n <= 4
    requires forall i :: 0 <= i < n ==> FragmentBytes(LettersOf(s, i)) == key[8 * i..8 * i + 8]
    ensures KeyUpTo(s, n) == key[..8 * n]
  {
    if n > 0 {
      FragmentsJoin(key, s, n - 1);
      JoinSlices(key, 8 * (n - 1), 8 * n);
    }
  }

  lemma {:induction false} BodyDecodes(key: Bytes, s: Bytes)
    requires |key| == 32 && |s| >= 56 && s[..56] == Body(key)
    ensures KeyOf(s) == key
  {
    forall i | 0 <= i < 4 ensures FragmentBytes(LettersOf(s, i)) == key[8 * i..8 * i + 8] {
      BodyFragments(key, s, i);
      FragmentRoundTrip(key, LettersOf(s, i), i);
    }
    FragmentsJoin(key, s, 4);
  }

  lemma {:induction false} BodyIsLetters(key: Bytes)
    requires |key| == 32
    ensures AllLetters(Body(key))
  {
    var s := Body(key);
    forall i | 0 <= i < 4 ensures AllLetters(LettersOf(s, i)) {
      assert s[..56] == s;
      BodyFragments(key, s, i);
      FragmentRoundTrip(key, LettersOf(s, i), i);
    }
    LettersByFragment(s);
  }

  /** Decoding an encoded key gives the key back, for every key and every hash. */
  lemma {:induction false} DecodeEncode(hash: Hash, key: Bytes)
    requires |key| == 32
    ensures Decode(hash, Encode(hash, key)) == Some(key)
  {
    var s := Encode(hash, key);
    assert s[..56] == Body(key) && s[56..] == Checksum(hash, key);
    BodyIsLetters(key);
    BodyDecodes(key, s);
  }

  /** Fragments of an identity that fit in 64 bits. */
  ghost predicate Fits(s: Bytes)
    requires |s| >= 56
  {
    forall i :: 0 <= i < 4 ==> Value26(LettersOf(s, i)) < TWO_64
  }

  lemma {:induction false} KeyFragments(s: Bytes, i: nat)
    requires |s| >= 56 && i < 4
    ensures FragmentOf(KeyOf(s), i) == Wrap64(Value26(LettersOf(s, i)))
  {
    KeyPart(s, 4, i);
    assert Pow256(8) == TWO_64;
    LEInverse(Wrap64(Value26(LettersOf(s, i))), 8);
  }

  /** Reducing a value below a bound keeps its letters exactly when it was below the bound already. */
  lemma {:induction false} ReducedLetters(letters: Bytes, r: nat, bound: nat)
    requires AllLetters(letters) && r < bound <= Pow26(|letters|)
    requires Value26(letters) < bound ==> r == Value26(letters)
    ensures Value26(letters) < bound <==> Letters(r, |letters|) == letters
  {
    Value26Inverse(letters);
    LettersInverse(r, |letters|);
  }

  lemma {:induction false} FragmentFitsIff(letters: Bytes)
    requires |letters| == 14 && AllLetters(letters)
    ensures Value26(letters) < TWO_64 <==> Letters(Wrap64(Value26(letters)), 14) == letters
  {
    assert Pow26(14) == 64509974703297150976;
    ReducedLetters(letters, Wrap64(Value26(letters)), TWO_64);
  }

  lemma {:induction false} FitsByFragment(s: Bytes, i: nat)
    requires |s| >= 56 && AllLetters(s[..56]) && i < 4
    ensures Value26(LettersOf(s, i)) < TWO_64 <==> Letters(FragmentOf(KeyOf(s), i), 14) == LettersOf(s, i)
  {
    KeyFragments(s, i);
    forall j | 0 <= j < 14 ensures IsLetter(LettersOf(s, i)[j]) { assert LettersOf(s, i)[j] == s[..56][14 * i + j]; }
    FragmentFitsIff(LettersOf(s, i));
  }

  /**
   * An accepted identity is the encoding of the key it decodes to exactly when each of its fragments
   * fits in 64 bits; a larger fragment wraps and names the same key as another string.
   */
  lemma {:induction false} EncodeDecodeIff(hash: Hash, s: Bytes)
    requires Decode(hash, s).Some?
    ensures Encode(hash, Decode(hash, s).value) == s <==> Fits(s)
  {
    var key := KeyOf(s);
    assert s == s[..56] + s[56..];
    if Fits(s) { FittingBody(s); }
    if Encode(hash, key) == s {
      assert s[..56] == Body(key);
      EncodedFits(key, s);
    }
  }

  lemma {:induction false} BodyFromFragments(key: Bytes, s: Bytes, n: nat)
    requires |key| == 32 && |s| >= 56 && n <= 4
    requires forall i :: 0 <= i < n ==> Letters(FragmentOf(key, i), 14) == LettersOf(s, i)
    ensures BodyUpTo(key, n) == s[..14 * n]
  {
    if n > 0 {
      BodyFromFragments(key, s, n - 1);
      assert s[..14 * n] == s[..14 * (n - 1)] + LettersOf(s, n - 1);
    }
  }

  lemma {:induction false} FittingBody(s: Bytes)
    requires |s| >= 56 && AllLetters(s[..56]) && Fits(s)
    ensures Body(KeyOf(s)) == s[..56]
  {
    forall i | 0 <= i < 4 ensures Letters(FragmentOf(KeyOf(s), i), 14) == LettersOf(s, i) { FitsByFragment(s, i); }
    BodyFromFragments(KeyOf(s), s, 4);
  }

  lemma {:induction false} EncodedFits(key: Bytes, s: Bytes)
    requires |key| == 32 && |s| >= 56 && s[..56] == Body(key)
    ensures Fits(s)
  {
    forall i | 0 <= i < 4 ensures Value26(LettersOf(s, i)) < TWO_64 {
      BodyFragments(key, s, i);
      FragmentLetters(FragmentOf(key, i));
    }
  }

  lemma {:induction false} AllZ(s: Bytes)
    requires forall i :: 0 <= i < |s| ==> s[i] == LETTER_A + 25
    ensures Value26(s) == Pow26(|s|) - 1
  {
    if s != [] { AllZ(s[1..]); }
  }

  lemma {:induction false} Pow26Of14()
    ensures Pow26(14) == 64509974703297150976
  {
    assert Pow26(7) == 8031810176;
    assert Pow26(10) == 141167095653376;
  }

  /** Such strings exist and are accepted: the decoder takes 56 letters Z with the right suffix, for every hash. */
  lemma {:induction false} OverflowIsAccepted(hash: Hash)
    ensures exists s :: Decode(hash, s).Some? && !Fits(s)
  {
    var body: Bytes := seq(56, _ => LETTER_A + 25);
    var suffix := Checksum(hash, KeyOf(body));
    var s := body + suffix;
    assert s[..56] == body && s[56..] == suffix;
    SameKey(body, [], suffix, 4);
    assert body + [] == body;
    AllZ(LettersOf(s, 0));
    Pow26Of14();
    assert !Fits(s);
  }

  /** The key depends on the first 56 letters only. */
  lemma {:induction false} SameKey(body: Bytes, a: Bytes, b: Bytes, n: nat)
    requires |body| == 56 && n <= 4
    ensures KeyUpTo(body + a, n) == KeyUpTo(body + b, n)
  {
    if n > 0 {
      SameKey(body, a, b, n - 1);
      var i := n - 1;
      assert LettersOf(body + a, i) == body[14 * i..14 * i + 14] == LettersOf(body + b, i);
    }
  }

  /** Each 56-letter body has at most one accepted suffix. */
  lemma {:induction false} SuffixIsUnique(hash: Hash, body: Bytes, a: Bytes, b: Bytes)
    requires |body| == 56 && Decode(hash, body + a).Some? && Decode(hash, body + b).Some?
    ensures a == b
  {
    SameKey(body, a, b, 4);
    assert (body + a)[56..] == a && (body + b)[56..] == b;
  }

  // ---------------------------------------------------------------- the loops

  /** Writes the letters of one fragment, dividing it down digit by digit. */
  method EncodeFragment(identity: array<byte>, base: nat, f: nat)
    requires base + 14 <= identity.Length
    modifies identity
    ensures identity[..] == old(identity[..base]) + Letters(f, 14) + old(identity[base + 14..])
  {
    var fragment := f;
    for digit := 0 to 14
      invariant identity[..base] == old(identity[..base]) && identity[base + 14..] == old(identity[base + 14..])
      invariant Letters(f, 14) == identity[base..base + digit] + Letters(fragment, 14 - digit)
    {
      identity[base + digit] := LETTER_A + fragment % 26;
      fragment := fragment / 26;
      assert identity[base..base + digit + 1] == identity[base..base + digit] + [identity[base + digit]];
    }
    assert identity[..] == identity[..base] + identity[base..base + 14] + identity[base + 14..];
  }

  method WriteLetters(n: nat, w: nat) returns (letters: Bytes)
    ensures letters == Letters(n, w)
  {
    var val := n;
    letters := [];
    for digit := 0 to w
      invariant Letters(n, w) == letters + Letters(val, w - digit)
    {
      letters := letters + [LETTER_A + val % 26];
      val := val / 26;
    }
  }

  method ComputeChecksum(hash: Hash, key: Bytes) returns (letters: Bytes)
    ensures letters == Checksum(hash, key)
  {
    letters := WriteLetters(ChecksumBits(hash, key), 4);
  }

  /** The letters of the four fragments, each written in its place. */
  method EncodeBody(identity: array<byte>, key: Bytes)
    requires |key| == 32 && identity.Length == 60
    modifies identity
    ensures identity[..56] == Body(key)
  {
    for i := 0 to 4
      invariant identity[..14 * i] == BodyUpTo(key, i)
    {
      ghost var done, after := identity[..14 * i], identity[14 * i + 14..];
      var fragment := FragmentOf(key, i);
      EncodeFragment(identity, 14 * i, fragment);
      TakeFront(identity[..], done, Letters(fragment, 14), after);
      assert identity[..14 * (i + 1)] == identity[..][..14 * (i + 1)];
    }
  }

  lemma {:induction false} TakeFront(all: Bytes, a: Bytes, b: Bytes, c: Bytes)
    requires all == a + b + c
    ensures all[..|a| + |b|] == a + b
  {
  }

  method EncodeBase26(hash: Hash, key: Bytes) returns (s: Bytes)
    requires |key| == 32
    ensures s == Encode(hash, key)
  {
    var identity := new byte[60](_ => LETTER_A);
    EncodeBody(identity, key);
    var checksum := ComputeChecksum(hash, key);
    s := identity[..56] + checksum;
  }

  lemma {:induction false} DropMultiple(y: nat, k: nat)
    ensures (y + k * TWO_64) % TWO_64 == y % TWO_64
  {
  }

  lemma {:induction false} HornerWraps(x: nat, d: nat)
    ensures (Wrap64(x) * 26 + d) % TWO_64 == Wrap64(26 * x + d)
  {
    var q, r := x / TWO_64, x % TWO_64;
    assert 26 * x + d == (r * 26 + d) + (26 * q) * TWO_64;
    DropMultiple(r * 26 + d, 26 * q);
  }

  lemma {:induction false} NonLetterRejects(s: Bytes, i: nat)
    requires |s| == 60 && i < 4 && !AllLetters(LettersOf(s, i))
    ensures !AllLetters(s[..56])
  {
    var j :| 0 <= j < 14 && !IsLetter(LettersOf(s, i)[j]);
    assert s[..56][14 * i + j] == LettersOf(s, i)[j];
  }

  lemma {:induction false} LettersAccept(s: Bytes)
    requires |s| == 60 && forall i :: 0 <= i < 4 ==> AllLetters(LettersOf(s, i))
    ensures AllLetters(s[..56])
  {
    forall i | 0 <= i < 4 ensures AllLetters(LettersOf(s[..56], i)) { assert LettersOf(s[..56], i) == LettersOf(s, i); }
    LettersByFragment(s[..56]);
  }

  /** Horner's rule from the most significant letter, wrapping at 64 bits; stops at the first non-letter. */
  method DecodeFragment(letters: Bytes) returns (fragment: Option<u64>)
    requires |letters| == 14
    ensures fragment == if AllLetters(letters) then Some(Wrap64(Value26(letters))) else None
  {
    var f: u64 := 0;
    var digit := 14;
    assert letters[14..] == [];
    while digit > 0
      invariant 0 <= digit <= 14
      invariant AllLetters(letters[digit..])
      invariant f == Wrap64(Value26(letters[digit..]))
    {
      digit := digit - 1;
      assert letters[digit..][1..] == letters[digit + 1..];
      if !IsLetter(letters[digit]) {
        return None;
      }
      HornerWraps(Value26(letters[digit + 1..]), Digit(letters[digit]));
      f := (f * 26 + (letters[digit] - LETTER_A)) % TWO_64;
    }
    assert letters[0..] == letters;
    fragment := Some(f);
  }

  /** The 32 bytes spelled by the first 56 letters, fragment by fragment. */
  method DecodeKey(s: Bytes) returns (key: Option<Bytes>)
    requires |s| == 60
    ensures key == if AllLetters(s[..56]) then Some(KeyOf(s)) else None
  {
    assert Pow256(8) == TWO_64;
    var publicKey: Bytes := [];
    for i := 0 to 4
      invariant publicKey == KeyUpTo(s, i)
      invariant forall j :: 0 <= j < i ==> AllLetters(LettersOf(s, j))
    {
      var fragment := DecodeFragment(LettersOf(s, i));
      if fragment.None? {
        NonLetterRejects(s, i);
        return None;
      }
      publicKey := publicKey + LE(fragment.value, 8);
    }
    LettersAccept(s);
    key := Some(publicKey);
  }

  method DecodeBase26(hash: Hash, s: Bytes) returns (key: Option<Bytes>)
    ensures key == Decode(hash, s)
  {
    if |s| != 60 {
      return None;
    }
    key := DecodeKey(s);
    if key.Some? {
      var expected := ComputeChecksum(hash, key.value);
      if s[56..] != expected {
        return None;
      }
    }
  }
}
