/**
 The sdbm hash of include/ckit/hash.h on words of w bits. Shifts, additions and subtractions
 wrap around one by one, as they do on unsigned words.
 */
module Sdbm {
  import opened Basics

  const FACTOR: nat := 65599

  /** The number of words of w bits. */
  function Size(w: nat): (m: nat)
    ensures m > 0
  {
    Pow(2, w)
  }

  function Wrap(x: int, w: nat): (r: nat)
    ensures r < Size(w)
  {
    x % Size(w)
  }

  /** x << k. */
  function Shl(x: nat, k: nat, w: nat): nat {
    Wrap(x * Pow(2, k), w)
  }

  /** partial_byte_hash. */
  function PartialByteHash(c: nat, hash: nat, w: nat): nat {
    Wrap(Wrap(Wrap(c + Shl(hash, 6, w), w) + Shl(hash, 16, w), w) - hash, w)
  }

  /** The sum of s[i] * 65599^(n - 1 - i). */
  function Poly(s: seq<int>): int {
    if s == [] then 0 else s[0] * Pow(FACTOR, |s| - 1) + Poly(s[1..])
  }

  // ---------- Arithmetic modulo a word ----------

  lemma Reassociate(a: int, b: int, c: int)
    ensures a * b * c == a * (b * c)
  {}

  lemma AddMultiple(x: int, k: int, m: nat)
    requires m > 0
    ensures (x + k * m) % m == x % m
  {
    assert x == x / m * m + x % m;
    Distribute(x / m, k, m);
    ModUnique(x + k * m, x / m + k, x % m, m);
  }

  /** hash has w bits and is congruent to x modulo two to the w. */
  predicate IsWord(hash: nat, x: int, w: nat) {
    hash < Pow(2, w) && (x - hash) % Pow(2, w) == 0
  }

  lemma WrapIsWord(x: int, w: nat)
    ensures IsWord(Wrap(x, w), x, w)
  {
    var m := Pow(2, w);
    assert x - x % m == x / m * m;
    AddMultiple(0, x / m, m);
  }

  lemma ModSum(x: int, y: int, k: int, m: nat)
    requires m > 0
    ensures (k * (x % m) + y) % m == (k * x + y) % m
  {
    var q, r := x / m, x % m;
    assert x == q * m + r;
    Distribute(q * m, r, k);
    Reassociate(k, q, m);
    assert k * x + y == (k * r + y) + k * q * m;
    AddMultiple(k * r + y, k * q, m);
  }

  /** Wrapping early makes no difference. */
  lemma WrapSum(x: int, y: int, k: int, w: nat)
    ensures Wrap(k * Wrap(x, w) + y, w) == Wrap(k * x + y, w)
  {
    ModSum(x, y, k, Size(w));
  }

  lemma WrapAdd(x: int, y: int, w: nat)
    ensures Wrap(Wrap(x, w) + y, w) == Wrap(x + y, w) == Wrap(y + Wrap(x, w), w)
  {
    WrapSum(x, y, 1, w);
  }

  /** One step is multiplication by 65599 and addition, modulo the word size. */
  lemma PartialByteHashIs(c: nat, hash: nat, w: nat)
    ensures PartialByteHash(c, hash, w) == Wrap(c + FACTOR * hash, w)
  {
    PowValues();
    var a, b := hash * 64, hash * 65536;
    assert Shl(hash, 6, w) == Wrap(a, w) && Shl(hash, 16, w) == Wrap(b, w);
    WrapAdd(a, c, w);
    WrapAdd(c + a, Wrap(b, w), w);
    WrapAdd(b, c + a, w);
    WrapAdd(c + a + b, 0 - hash, w);
  }

  lemma PowValues()
    ensures Pow(2, 6) == 64 && Pow(2, 8) == 256 && Pow(2, 16) == 65536
  {
    assert Pow(2, 4) == 16;
    assert Pow(2, 8) == 256;
    assert Pow(2, 12) == 4096;
  }

  // ---------- The polynomial ----------

  lemma {:induction false} PolyAppend(s: seq<int>, t: seq<int>)
    ensures Poly(s + t) == Poly(s) * Pow(FACTOR, |t|) + Poly(t)
  {
    if s == [] {
      assert s + t == t;
    } else {
      assert (s + t)[1..] == s[1..] + t;
      PolyAppend(s[1..], t);
      PowSum(FACTOR, |s| - 1, |t|);
      Reassociate(s[0], Pow(FACTOR, |s| - 1), Pow(FACTOR, |t|));
      Distribute(s[0] * Pow(FACTOR, |s| - 1), Poly(s[1..]), Pow(FACTOR, |t|));
      assert Poly(s + t) == s[0] * Pow(FACTOR, |s| - 1 + |t|) + Poly(s[1..] + t);
    }
  }

  lemma {:induction false} PowSum(b: nat, d: nat, e: nat)
    ensures Pow(b, d + e) == Pow(b, d) * Pow(b, e)
  {
    if d > 0 {
      PowSum(b, d - 1, e);
      Reassociate(b, Pow(b, d - 1), Pow(b, e));
    }
  }

  lemma {:induction false} PolySnoc(s: seq<int>, x: int)
    ensures Poly(s + [x]) == FACTOR * Poly(s) + x
  {
    PolyAppend(s, [x]);
    assert Pow(FACTOR, 1) == FACTOR * Pow(FACTOR, 0) == FACTOR;
    assert Poly([x]) == x * Pow(FACTOR, 0) + Poly([]);
  }

  function Ints(bytes: seq<Byte>): (r: seq<int>)
    ensures |r| == |bytes|
  {
    seq(|bytes|, i requires 0 <= i < |bytes| => bytes[i] as int)
  }

  /** What byte_array_hash computes: the polynomial, modulo the word size. */
  function Hash(bytes: seq<Byte>, w: nat): nat {
    Wrap(Poly(Ints(bytes)), w)
  }

  method ByteArrayHash(bytes: seq<Byte>, w: nat) returns (hash: nat)
    ensures hash == Hash(bytes, w) && IsWord(hash, Poly(Ints(bytes)), w)
  {
    var ptr: nat, len: nat := 0, |bytes|;
    hash := 0;
    while len > 0
      invariant ptr + len == |bytes|
      invariant hash == Wrap(Poly(Ints(bytes)[..ptr]), w)
    {
      PartialByteHashIs(bytes[ptr] as nat, hash, w);
      WrapSum(Poly(Ints(bytes)[..ptr]), bytes[ptr] as int, FACTOR, w);
      PolySnoc(Ints(bytes)[..ptr], bytes[ptr] as int);
      assert Ints(bytes)[..ptr + 1] == Ints(bytes)[..ptr] + [bytes[ptr] as int];
      len := len - 1;
      hash := PartialByteHash(bytes[ptr] as nat, hash, w);
      ptr := ptr + 1;
    }
    assert Ints(bytes)[..ptr] == Ints(bytes);
    WrapIsWord(Poly(Ints(bytes)), w);
  }

  /** The hash of a concatenation follows from the hashes of its parts. */
  lemma {:induction false} HashAppend(a: seq<Byte>, b: seq<Byte>, w: nat)
    ensures Hash(a + b, w) == Wrap(Hash(a, w) * Pow(FACTOR, |b|) + Hash(b, w), w)
  {
    IntsAppend(a, b);
    PolyAppend(Ints(a), Ints(b));
    WrapProduct(Poly(Ints(a)), Pow(FACTOR, |b|), Poly(Ints(b)), Poly(Ints(a + b)), w);
  }

  lemma IntsAppend(a: seq<Byte>, b: seq<Byte>)
    ensures Ints(a + b) == Ints(a) + Ints(b)
  {}

  lemma WrapProduct(p: int, f: int, q: int, r: int, w: nat)
    requires r == p * f + q
    ensures Wrap(r, w) == Wrap(Wrap(p, w) * f + Wrap(q, w), w)
  {
    var h := Wrap(p, w);
    Commute(p, f);
    Commute(h, f);
    WrapSum(p, q, f, w);
    WrapAdd(q, f * h, w);
  }

  lemma Commute(a: int, b: int)
    ensures a * b == b * a
  {}

  // ---------- Strings ----------

  /** The value of a char: on some machines the upper half of the bytes is negative. */
  function CharValue(c: Byte, signedChar: bool): int {
    if signedChar && c >= 128 then c as int - 256 else c as int
  }

  function CharValues(s: seq<Byte>, signedChar: bool): (r: seq<int>)
    ensures |r| == |s|
  {
    seq(|s|, i requires 0 <= i < |s| => CharValue(s[i], signedChar))
  }

  /** 1 for every byte of the upper half, 0 for the others. */
  function Upper(s: seq<Byte>): (r: seq<int>)
    ensures |r| == |s|
  {
    seq(|s|, i requires 0 <= i < |s| => if s[i] >= 128 then 1 else 0)
  }

  /** string_hash reads up to the first NUL, which is at n. */
  method StringHash(str: seq<Byte>, signedChar: bool, w: nat, ghost n: nat) returns (hash: nat)
    requires n < |str| && str[n] == 0 && forall i :: 0 <= i < n ==> str[i] != 0
    ensures hash == Wrap(Poly(CharValues(str[..n], signedChar)), w)
    ensures IsWord(hash, Poly(CharValues(str[..n], signedChar)), w)
  {
    var i := 0;
    hash := 0;
    ghost var v := CharValues(str[..n], signedChar);
    while str[i] != 0
      invariant 0 <= i <= n
      invariant hash == Wrap(Poly(v[..i]), w)
      decreases n - i
    {
      var c := Wrap(CharValue(str[i], signedChar), w);
      PartialByteHashIs(c, hash, w);
      WrapSum(CharValue(str[i], signedChar), FACTOR * hash, 1, w);
      WrapSum(Poly(v[..i]), v[i], FACTOR, w);
      PolySnoc(v[..i], v[i]);
      assert v[..i + 1] == v[..i] + [v[i]];
      hash := PartialByteHash(c, hash, w);
      i := i + 1;
    }
    assert v[..i] == v;
    WrapIsWord(Poly(v), w);
  }

  lemma {:induction false} UpperPoly(s: seq<Byte>, signedChar: bool)
    ensures Poly(CharValues(s, signedChar)) == Poly(Ints(s)) - if signedChar then 256 * Poly(Upper(s)) else 0
  {
    if s != [] {
      var t := s[1..];
      assert CharValues(s, signedChar)[1..] == CharValues(t, signedChar);
      assert Ints(s)[1..] == Ints(t) && Upper(s)[1..] == Upper(t);
      UpperPoly(t, signedChar);
      var f := Pow(FACTOR, |t|);
      assert s[0] >= 128 ==> (s[0] as int - 256) * f == s[0] as int * f - 256 * f;
    }
  }

  /** Exactly when a string hashes like its bytes: always if char is unsigned or all bytes are below 128. */
  lemma {:induction false} StringAgrees(s: seq<Byte>, signedChar: bool, w: nat)
    ensures Wrap(Poly(CharValues(s, signedChar)), w) == Wrap(Poly(Ints(s)), w) <==>
      !signedChar || Wrap(256 * Poly(Upper(s)), w) == 0
    ensures (forall i :: 0 <= i < |s| ==> s[i] < 128) ==> Poly(Upper(s)) == 0
  {
    UpperPoly(s, signedChar);
    var p, u, m := Poly(Ints(s)), 256 * Poly(Upper(s)), Size(w);
    if signedChar {
      SameWord(p, u, m);
    }
    if forall i :: 0 <= i < |s| ==> s[i] < 128 { NoUpper(s); }
  }

  lemma SameWord(p: int, u: int, m: nat)
    requires m > 0
    ensures (p - u) % m == p % m <==> u % m == 0
  {
    var q := u / m;
    assert u == q * m + u % m;
    if u % m == 0 {
      AddMultiple(p - u, q, m);
    }
    if (p - u) % m == p % m {
      var k := p / m - (p - u) / m;
      assert p == p / m * m + p % m && p - u == (p - u) / m * m + (p - u) % m;
      assert u == k * m;
      AddMultiple(0, k, m);
    }
  }

  lemma {:induction false} NoUpper(s: seq<Byte>)
    requires forall i :: 0 <= i < |s| ==> s[i] < 128
    ensures Poly(Upper(s)) == 0
  {
    if s != [] {
      assert Upper(s)[1..] == Upper(s[1..]);
      NoUpper(s[1..]);
    }
  }

  lemma {:induction false} PowOdd(e: nat)
    ensures Pow(FACTOR, e) % 2 == 1
  {
    if e > 0 { PowOdd(e - 1); }
  }

  lemma {:induction false} UpperOnce(s: seq<Byte>, i: nat)
    requires i < |s| && s[i] >= 128 && forall j :: 0 <= j < |s| && j != i ==> s[j] < 128
    ensures Poly(Upper(s)) == Pow(FACTOR, |s| - 1 - i)
  {
    var t := s[1..];
    assert Upper(s)[1..] == Upper(t);
    if i == 0 {
      NoUpper(t);
    } else {
      assert t[i - 1] == s[i] && forall j :: 0 <= j < |t| && j != i - 1 ==> t[j] == s[j + 1];
      UpperOnce(t, i - 1);
    }
  }

  /** With signed char, a string with exactly one byte above 127 never hashes like its bytes. */
  lemma OneUpperNever(s: seq<Byte>, i: nat, w: nat)
    requires i < |s| && s[i] >= 128 && (forall j :: 0 <= j < |s| && j != i ==> s[j] < 128) && w > 8
    ensures Wrap(Poly(CharValues(s, true)), w) != Wrap(Poly(Ints(s)), w)
  {
    var p, q := Poly(Upper(s)), Pow(2, w - 9);
    UpperOnce(s, i);
    PowOdd(|s| - 1 - i);
    StringAgrees(s, true, w);
    PowSum(2, 9, w - 9);
    PowValues();
    assert Pow(2, 9) == 2 * Pow(2, 8) == 512;
    if Wrap(256 * p, w) == 0 {
      EvenThen(p, q);
    }
  }

  lemma EvenThen(p: int, q: nat)
    requires q > 0 && 256 * p % (512 * q) == 0
    ensures p % 2 == 0
  {
    var k := 256 * p / (512 * q);
    assert 256 * p == 512 * q * k;
    Reassociate(512, q, k);
    assert p == 2 * (q * k);
  }
}
