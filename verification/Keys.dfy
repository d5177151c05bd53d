/** The comparison that src/rbtree.c falls back on, and where it is an order. */
module Keys {
  import opened RbShape
  import RbSpec

  /** At the first byte in which they differ, a has the lesser one. */
  ghost predicate Before(a: Key, b: Key) {
    exists i: nat :: FirstLess(a, b, i)
  }

  ghost predicate FirstLess(a: Key, b: Key, i: nat) {
    i < |a| && i < |b| && a[..i] == b[..i] && a[i] < b[i]
  }

  function Memcmp(a: Key, b: Key): int
    requires |a| == |b|
  {
    if a == [] then 0
    else if a[0] != b[0] then a[0] as int - b[0] as int
    else Memcmp(a[1..], b[1..])
  }

  function DefaultComp(a: Key, b: Key): int {
    if |a| != |b| then if |a| < |b| then 1 else 0
    else Memcmp(a, b)
  }

  lemma {:induction false} MemcmpIs(a: Key, b: Key)
    requires |a| == |b|
    ensures Memcmp(a, b) < 0 <==> Before(a, b)
    ensures Memcmp(a, b) == 0 <==> a == b
  {
    if a != [] {
      var s, t := a[1..], b[1..];
      assert a == [a[0]] + s && b == [b[0]] + t;
      if a[0] == b[0] {
        MemcmpIs(s, t);
        if i: nat :| FirstLess(s, t, i) {
          assert a[..i + 1] == [a[0]] + s[..i] && b[..i + 1] == [b[0]] + t[..i];
          assert FirstLess(a, b, i + 1);
        }
        if i: nat :| FirstLess(a, b, i) {
          assert s[..i - 1] == a[..i][1..] && t[..i - 1] == b[..i][1..];
          assert FirstLess(s, t, i - 1);
        }
      } else if a[0] < b[0] {
        assert FirstLess(a, b, 0);
      } else if i: nat :| FirstLess(a, b, i) {
        assert i > 0 ==> a[..i][0] == b[..i][0];
      }
    }
  }

  /** On keys of one length the default comparison is the order of byte strings; the longer of two others is the lesser one, or equal. */
  lemma DefaultCompIs(a: Key, b: Key)
    ensures |a| == |b| ==> (DefaultComp(a, b) < 0 <==> Before(a, b))
    ensures |a| == |b| ==> (DefaultComp(a, b) > 0 <==> Before(b, a))
    ensures |a| == |b| ==> (DefaultComp(a, b) == 0 <==> a == b)
    ensures |a| != |b| ==> DefaultComp(a, b) == if |a| < |b| then 1 else 0
  {
    if |a| == |b| {
      MemcmpIs(a, b);
      MemcmpIs(b, a);
      MemcmpFlip(a, b);
    }
  }

  lemma {:induction false} MemcmpFlip(a: Key, b: Key)
    requires |a| == |b|
    ensures Memcmp(a, b) == -Memcmp(b, a) && (Memcmp(a, b) == 0 <==> a == b)
  {
    if a != [] {
      MemcmpFlip(a[1..], b[1..]);
      assert a == [a[0]] + a[1..] && b == [b[0]] + b[1..];
    }
  }

  lemma {:induction false} MemcmpChain(a: Key, b: Key, d: Key)
    requires |a| == |b| == |d| && Memcmp(a, b) <= 0 && Memcmp(b, d) <= 0
    ensures Memcmp(a, d) <= 0
  {
    if a != [] && a[0] == b[0] == d[0] {
      MemcmpChain(a[1..], b[1..], d[1..]);
    }
  }

  /** On unequal lengths the answer is 1 or 0 and never negative, so only keys of one length can be ordered by it. */
  lemma DefaultCompOrders(s: set<Key>)
    ensures RbSpec.OrderOn(DefaultComp, s) <==> forall a, b :: a in s && b in s ==> |a| == |b|
  {
    if a, b :| a in s && b in s && |a| < |b| {
      assert DefaultComp(a, b) > 0 && DefaultComp(b, a) == 0;
    } else {
      assert forall a, b :: a in s && b in s ==> !(|a| < |b|) && !(|b| < |a|);
      forall a, b | a in s && b in s
        ensures DefaultComp(a, b) < 0 <==> DefaultComp(b, a) > 0
      {
        MemcmpFlip(a, b);
      }
      forall a, b, d | a in s && b in s && d in s && DefaultComp(a, b) <= 0 && DefaultComp(b, d) <= 0
        ensures DefaultComp(a, d) <= 0
      {
        MemcmpChain(a, b, d);
      }
    }
  }
}
