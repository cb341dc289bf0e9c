/** Keys are byte strings compared lexicographically, as Go's bytes.Compare does. */
module ByteOrder {

  type Byte = b: int | 0 <= b < 256
  type Key = seq<Byte>
  type Value = seq<Byte>

  /** bytes.Compare(a, b) < 0 */
  predicate Less(a: Key, b: Key) {
    if |b| == 0 then false
    else if |a| == 0 then true
    else a[0] < b[0] || (a[0] == b[0] && Less(a[1..], b[1..]))
  }

  /** bytes.Compare(a, b) <= 0 */
  predicate AtMost(a: Key, b: Key) {
    !Less(b, a)
  }

  lemma {:induction false} LessIrreflexive(a: Key)
    ensures !Less(a, a)
  {
    if |a| > 0 { LessIrreflexive(a[1..]); }
  }

  lemma {:induction false} LessTransitive(a: Key, b: Key, c: Key)
    requires Less(a, b) && Less(b, c)
    ensures Less(a, c)
  {
    if |a| > 0 && a[0] == b[0] && b[0] == c[0] { LessTransitive(a[1..], b[1..], c[1..]); }
  }

  lemma {:induction false} LessTotal(a: Key, b: Key)
    ensures Less(a, b) || a == b || Less(b, a)
  {
    if |a| > 0 && |b| > 0 && a[0] == b[0] {
      LessTotal(a[1..], b[1..]);
      assert a[1..] == b[1..] ==> a == [a[0]] + a[1..] == [b[0]] + b[1..] == b;
    }
  }

  lemma LessAsymmetric(a: Key, b: Key)
    requires Less(a, b)
    ensures AtMost(a, b)
  {
    if Less(b, a) { LessTransitive(a, b, a); LessIrreflexive(a); }
  }

  lemma AtMostLeft(a: Key, b: Key, c: Key)
    requires Less(a, b) && AtMost(b, c)
    ensures Less(a, c) && AtMost(a, c)
  {
    LessTotal(b, c);
    if Less(b, c) { LessTransitive(a, b, c); }
    LessAsymmetric(a, c);
  }

  /** The order is total: the facts above, for all keys at once. */
  lemma TotalOrder()
    ensures forall a: Key {:trigger Less(a, a)} :: !Less(a, a)
    ensures forall a: Key, b: Key, c: Key :: Less(a, b) && Less(b, c) ==> Less(a, c)
    ensures forall a: Key, b: Key :: Less(a, b) || a == b || Less(b, a)
  {
    forall a: Key ensures !Less(a, a) { LessIrreflexive(a); }
    forall a: Key, b: Key, c: Key | Less(a, b) && Less(b, c) ensures Less(a, c) { LessTransitive(a, b, c); }
    forall a: Key, b: Key ensures Less(a, b) || a == b || Less(b, a) { LessTotal(a, b); }
  }

  /** The first `n` bytes agree. */
  ghost predicate Agree(a: Key, b: Key, n: nat) {
    n <= |a| && n <= |b| && a[..n] == b[..n]
  }

  /** Keys are compared by the first byte in which they differ; a key that runs out of bytes is the smaller one. */
  lemma {:induction false} LessByFirstDifference(a: Key, b: Key)
    ensures Less(a, b) <==> exists n: nat :: Agree(a, b, n) && n < |b| && (n == |a| || a[n] < b[n])
  {
    if |a| > 0 && |b| > 0 {
      LessByFirstDifference(a[1..], b[1..]);
      if n: nat :| Agree(a, b, n) && n < |b| && (n == |a| || a[n] < b[n]) {
        if n > 0 {
          assert a[..n][0] == b[..n][0];
          assert a[1..][..n - 1] == a[..n][1..] && b[1..][..n - 1] == b[..n][1..];
          assert Agree(a[1..], b[1..], n - 1);
        }
      }
      if a[0] == b[0] {
        if n: nat :| Agree(a[1..], b[1..], n) && n < |b[1..]| && (n == |a[1..]| || a[1..][n] < b[1..][n]) {
          assert a[..n + 1] == [a[0]] + a[1..][..n] && b[..n + 1] == [b[0]] + b[1..][..n];
          assert Agree(a, b, n + 1);
        }
      }
    }
    assert Agree(a, b, 0);
  }

  /** Keys of one length are compared by all bytes but the last, then by the last. */
  lemma {:induction false} LessByLast(a: Key, b: Key)
    requires |a| == |b| > 0
    ensures var n := |a| - 1; Less(a, b) <==> Less(a[..n], b[..n]) || (a[..n] == b[..n] && a[n] < b[n])
  {
    var n := |a| - 1;
    LessIrreflexive(a[..n]);
    if n > 0 {
      LessByLast(a[1..], b[1..]);
      assert a[1..][..n - 1] == a[..n][1..] && b[1..][..n - 1] == b[..n][1..];
      assert a[..n] == [a[0]] + a[..n][1..] && b[..n] == [b[0]] + b[..n][1..];
    }
  }
}
