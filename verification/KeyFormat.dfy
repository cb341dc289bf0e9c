/** Database keys: a prefix byte and fixed-width big-endian segments. */
module KeyFormat {
  import opened ByteOrder
  import opened Tree
  import opened VersionStore

  // ---------------------------------------------------------------- big-endian numbers

  /** The last `width` base-256 digits of `n`, most significant first. */
  function BigEndian(n: nat, width: nat): (bytes: Key)
    ensures |bytes| == width
    decreases width
  {
    if width == 0 then [] else BigEndian(n / 256, width - 1) + [n % 256]
  }

  function Decode(bytes: Key): nat
    decreases bytes
  {
    if bytes == [] then 0 else 256 * Decode(bytes[..|bytes| - 1]) + bytes[|bytes| - 1]
  }

  function Power(width: nat): nat {
    if width == 0 then 1 else 256 * Power(width - 1)
  }

  lemma {:induction false} DecodeInverts(n: nat, width: nat)
    requires n < Power(width)
    ensures Decode(BigEndian(n, width)) == n
    decreases width
  {
    if width > 0 {
      DecodeInverts(n / 256, width - 1);
      var bytes := BigEndian(n, width);
      assert bytes[..|bytes| - 1] == BigEndian(n / 256, width - 1);
    }
  }

  lemma LessLast(a: Key, b: Key, x: Byte, y: Byte)
    requires |a| == |b|
    ensures Less(a + [x], b + [y]) <==> Less(a, b) || (a == b && x < y)
  {
    hide Less;
    LessByLast(a + [x], b + [y]);
    assert (a + [x])[..|a|] == a && (b + [y])[..|b|] == b;
  }

  lemma ByDigits(a: nat, b: nat)
    ensures a < b <==> a / 256 < b / 256 || (a / 256 == b / 256 && a % 256 < b % 256)
  {
  }

  /** Byte order is number order. */
  lemma {:induction false} BigEndianOrder(a: nat, b: nat, width: nat)
    requires a < Power(width) && b < Power(width)
    ensures Less(BigEndian(a, width), BigEndian(b, width)) <==> a < b
    decreases width
  {
    if width > 0 {
      LastDigit(a, width);
      LastDigit(b, width);
      hide Less, Decode, BigEndian, Power;
      ByDigits(a, b);
      BigEndianOrder(a / 256, b / 256, width - 1);
      DecodeInverts(a / 256, width - 1);
      DecodeInverts(b / 256, width - 1);
      LessLast(BigEndian(a / 256, width - 1), BigEndian(b / 256, width - 1), a % 256, b % 256);
    }
  }

  lemma LastDigit(a: nat, width: nat)
    requires width > 0 && a < Power(width)
    ensures a / 256 < Power(width - 1) && BigEndian(a, width) == BigEndian(a / 256, width - 1) + [a % 256]
  {
  }

  lemma LessAfterPrefix(prefix: Byte, a: Key, b: Key)
    ensures Less([prefix] + a, [prefix] + b) <==> Less(a, b)
  {
    assert ([prefix] + a)[1..] == a && ([prefix] + b)[1..] == b;
  }

  // ---------------------------------------------------------------- formatting and scanning

  /** A layout entry of 0, allowed only last, takes a segment of any length. */
  datatype KeyFormat = KeyFormat(prefix: Byte, layout: seq<nat>)

  ghost predicate Valid(kf: KeyFormat) {
    forall i :: 0 <= i < |kf.layout| - 1 ==> kf.layout[i] > 0
  }

  /** `s` padded on the left to the width of its place. */
  function Padded(s: Key, l: nat): Key {
    if l == 0 || |s| >= l then s else seq(l - |s|, _ => 0) + s
  }

  ghost predicate Fits(kf: KeyFormat, segments: seq<Key>) {
    && |segments| <= |kf.layout|
    && forall i :: 0 <= i < |segments| ==> kf.layout[i] == 0 || |segments[i]| <= kf.layout[i]
  }

  /** The segments one after the other, each at its width. */
  ghost function Body(kf: KeyFormat, segments: seq<Key>): Key
    requires Fits(kf, segments)
    decreases segments
  {
    if segments == [] then []
    else
      var i := |segments| - 1;
      Body(kf, segments[..i]) + Padded(segments[i], kf.layout[i])
  }

  ghost function KeyOf(kf: KeyFormat, segments: seq<Key>): Key
    requires Fits(kf, segments)
  {
    [kf.prefix] + Body(kf, segments)
  }

  /** Every segment has the full width of its place. */
  ghost predicate Full(kf: KeyFormat, segments: seq<Key>) {
    && |segments| <= |kf.layout|
    && forall i :: 0 <= i < |segments| ==> kf.layout[i] == 0 || |segments[i]| == kf.layout[i]
  }

  /** The width of the first `k` places. */
  function Width(kf: KeyFormat, k: nat): nat
    requires k <= |kf.layout|
  {
    if k == 0 then 0 else Width(kf, k - 1) + kf.layout[k - 1]
  }

  lemma {:induction false} BodyWidth(kf: KeyFormat, segments: seq<Key>)
    requires Valid(kf) && Fits(kf, segments)
    ensures var last := |segments| - 1;
            |Body(kf, segments)| ==
            Width(kf, |segments|) + if segments != [] && kf.layout[last] == 0 then |segments[last]| else 0
    decreases segments
  {
    if segments != [] { BodyWidth(kf, segments[..|segments| - 1]); }
  }

  /** Go's copy. */
  method Copy(key: array<Byte>, at: nat, s: Key)
    requires at + |s| <= key.Length
    modifies key
    ensures key[..at] == old(key[..at]) && key[at..at + |s|] == s && key[at + |s|..] == old(key[at + |s|..])
  {
    for i := 0 to |s|
      invariant key[..at] == old(key[..at]) && key[at..at + i] == s[..i] && key[at + i..] == old(key[at + i..])
    {
      key[at + i] := s[i];
    }
  }

  ghost predicate ZeroFrom(key: array<Byte>, n: nat)
    reads key
  {
    forall j :: n <= j < key.Length ==> key[j] == 0
  }

  lemma PadsLeft(before: Key, after: Key, n: nat, at: nat, s: Key, l: nat)
    requires |after| == |before| && n <= at && at + |s| <= |before| && at - n == (if l == 0 then 0 else l - |s|)
    requires after[..at] == before[..at] && after[at..at + |s|] == s
    requires forall j :: n <= j < |before| ==> before[j] == 0
    ensures after[..at + |s|] == before[..n] + Padded(s, l)
  {
    assert after[n..at] == before[n..at] by {
      forall j | n <= j < at ensures after[j] == before[j] { assert after[..at][j] == before[..at][j]; }
    }
    assert after[..n] == before[..n] by {
      forall j | 0 <= j < n ensures after[j] == before[j] { assert after[..at][j] == before[..at][j]; }
    }
    assert after[..at + |s|] == after[..n] + (after[n..at] + after[at..at + |s|]);
    assert before[n..at] + s == Padded(s, l);
  }

  /** One segment: big endian, so padded on the left by the zeroes of the buffer. */
  method Place(key: array<Byte>, n: nat, s: Key, l: nat) returns (n': nat)
    requires (l == 0 || |s| <= l) && n + (if l == 0 then |s| else l) <= key.Length && ZeroFrom(key, n)
    modifies key
    ensures n <= n' <= key.Length && key[..n'] == old(key[..n]) + Padded(s, l) && ZeroFrom(key, n')
  {
    hide Padded;
    n' := n + if l == 0 then |s| else l;
    ghost var before := key[..];
    Copy(key, n' - |s|, s);
    PadsLeft(before, key[..], n, n' - |s|, s, l);
    assert key[..][..n'] == key[..n'] && before[..n] == old(key[..n]);
    assert forall j :: n' <= j < key.Length ==> key[j] == key[n'..][j - n'];
  }

  /** KeyBytes: a zeroed buffer filled segment by segment at a running offset; None where it panics. */
  method KeyBytes(kf: KeyFormat, segments: seq<Key>) returns (r: Option<Key>)
    requires Valid(kf)
    ensures r.Some? <==> Fits(kf, segments)
    ensures r.Some? ==> r.value == KeyOf(kf, segments)
  {
    hide Padded;
    if |segments| > |kf.layout| { return None; }
    var unbounded := |kf.layout| > 0 && kf.layout[|kf.layout| - 1] == 0;
    var keyLen := 1 + Width(kf, |segments|) + if unbounded && |segments| > 0 then |segments[|segments| - 1]| else 0;
    var key := new Byte[keyLen](_ => 0);
    key[0] := kf.prefix;
    var n, i := 1, 0;
    while i < |segments|
      invariant 0 <= i <= |segments| && Fits(kf, segments[..i]) && key.Length == keyLen
      invariant 0 <= n <= key.Length && key[..n] == KeyOf(kf, segments[..i]) && ZeroFrom(key, n)
    {
      var s, l := segments[i], kf.layout[i];
      if l != 0 && |s| > l {
        assert !Fits(kf, segments);
        return None;
      }
      NextFits(kf, segments, i);
      n := Place(key, n, s, l);
      i := i + 1;
    }
    assert segments[..i] == segments;
    return Some(key[..n]);
  }

  lemma NextFits(kf: KeyFormat, segments: seq<Key>, i: nat)
    requires Valid(kf) && i < |segments| <= |kf.layout| && Fits(kf, segments[..i])
    requires kf.layout[i] == 0 || |segments[i]| <= kf.layout[i]
    ensures Fits(kf, segments[..i + 1])
    ensures KeyOf(kf, segments[..i + 1]) == KeyOf(kf, segments[..i]) + Padded(segments[i], kf.layout[i])
    ensures |KeyOf(kf, segments[..i])| + (if kf.layout[i] == 0 then |segments[i]| else kf.layout[i]) <=
            1 + Width(kf, |segments|) + if kf.layout[|kf.layout| - 1] == 0 then |segments[|segments| - 1]| else 0
  {
    hide Padded;
    assert Fits(kf, segments[..i + 1]);
    NextKey(kf, segments, i);
    BodyWidth(kf, segments[..i]);
    WidthGrows(kf, i + 1, |segments|);
  }

  lemma NextKey(kf: KeyFormat, segments: seq<Key>, i: nat)
    requires i < |segments| <= |kf.layout| && Fits(kf, segments[..i]) && Fits(kf, segments[..i + 1])
    ensures KeyOf(kf, segments[..i + 1]) == KeyOf(kf, segments[..i]) + Padded(segments[i], kf.layout[i])
  {
    hide Padded, Fits;
    assert segments[..i + 1][..i] == segments[..i];
    var b, p := Body(kf, segments[..i]), Padded(segments[i], kf.layout[i]);
    assert [kf.prefix] + (b + p) == ([kf.prefix] + b) + p;
  }

  lemma {:induction false} WidthGrows(kf: KeyFormat, a: nat, b: nat)
    requires a <= b <= |kf.layout|
    ensures Width(kf, a) <= Width(kf, b)
    decreases b
  {
    if a < b { WidthGrows(kf, a, b - 1); }
  }

  /** ScanBytes: segments of the widths of the layout, as far as the key goes. */
  method ScanBytes(kf: KeyFormat, key: Key) returns (segments: seq<Key>)
    ensures segments == Scanned(kf, key, 0, 1)
  {
    segments := [];
    var n, i := 1, 0;
    while i < |kf.layout|
      invariant 0 <= i <= |kf.layout| && n >= 1
      invariant Scanned(kf, key, 0, 1) == segments + Scanned(kf, key, i, n)
    {
      var l := kf.layout[i];
      n := n + l;
      if n > |key| { return; }
      if l == 0 {
        return segments + [key[n..]];
      }
      segments := segments + [key[n - l..n]];
      i := i + 1;
    }
  }

  function Scanned(kf: KeyFormat, key: Key, i: nat, n: nat): seq<Key>
    requires i <= |kf.layout|
    decreases |kf.layout| - i
  {
    if i == |kf.layout| || n + kf.layout[i] > |key| then []
    else if kf.layout[i] == 0 then [key[n..]]
    else [key[n..n + kf.layout[i]]] + Scanned(kf, key, i + 1, n + kf.layout[i])
  }

  lemma FullFits(kf: KeyFormat, segments: seq<Key>)
    requires Full(kf, segments)
    ensures Fits(kf, segments)
    ensures forall i :: 0 <= i <= |segments| ==> Full(kf, segments[..i]) && Fits(kf, segments[..i])
  {
  }

  /** Scanning gives back full-width segments: all of them, or as many as were given before a fixed-width place. */
  lemma ScanInvertsKey(kf: KeyFormat, segments: seq<Key>)
    requires Valid(kf) && Full(kf, segments) && Fits(kf, segments)
    requires |segments| == |kf.layout| || kf.layout[|segments|] > 0
    ensures Scanned(kf, KeyOf(kf, segments), 0, 1) == segments
  {
    FullFits(kf, segments);
    assert segments[..0] == [];
    ScanFrom(kf, segments, 0);
    assert segments[0..] == segments;
  }

  lemma {:induction false} ScanFrom(kf: KeyFormat, segments: seq<Key>, i: nat)
    requires Valid(kf) && Full(kf, segments) && Fits(kf, segments) && i <= |segments| && Fits(kf, segments[..i])
    requires |segments| == |kf.layout| || kf.layout[|segments|] > 0
    ensures Scanned(kf, KeyOf(kf, segments), i, |KeyOf(kf, segments[..i])|) == segments[i..]
    decreases |segments| - i
  {
    hide Padded;
    assert segments[..|segments|] == segments;
    if i < |segments| {
      FullFits(kf, segments);
      NextKey(kf, segments, i);
      FullIsUnpadded(segments[i], kf.layout[i]);
      KeyPrefix(kf, segments, i + 1);
      var before, upto, key := KeyOf(kf, segments[..i]), KeyOf(kf, segments[..i + 1]), KeyOf(kf, segments);
      assert key[|before|..|upto|] == upto[|before|..] == segments[i];
      if kf.layout[i] == 0 {
        assert i + 1 == |segments|;
        assert key[|before|..] == segments[i];
      } else {
        ScanFrom(kf, segments, i + 1);
      }
      assert segments[i..] == [segments[i]] + segments[i + 1..];
    }
  }

  lemma FullIsUnpadded(s: Key, l: nat)
    requires l == 0 || |s| == l
    ensures Padded(s, l) == s
  {
  }

  lemma {:induction false} KeyPrefix(kf: KeyFormat, segments: seq<Key>, i: nat)
    requires Fits(kf, segments) && i <= |segments| && forall k :: 0 <= k <= |segments| ==> Fits(kf, segments[..k])
    ensures KeyOf(kf, segments[..i]) <= KeyOf(kf, segments)
    decreases |segments| - i
  {
    hide Padded, Body;
    if i == |segments| {
      assert segments[..i] == segments;
    } else {
      NextKey(kf, segments, i);
      KeyPrefix(kf, segments, i + 1);
    }
  }

  // ---------------------------------------------------------------- the keys of roots and orphans

  const INT64_SIZE := 8
  const HASH_SIZE := 32
  const TWO_TO_63 := 0x8000_0000_0000_0000

  /** r<version> */
  const ROOT_KEY_FORMAT := KeyFormat(114, [INT64_SIZE])

  /** o<last-version><first-version><hash> */
  const ORPHAN_KEY_FORMAT := KeyFormat(111, [INT64_SIZE, INT64_SIZE, HASH_SIZE])

  /** uint64(v), two's complement. */
  function Uint64(v: int): nat { v % 0x1_0000_0000_0000_0000 }

  function Version(v: int): Key { BigEndian(Uint64(v), INT64_SIZE) }

  lemma PowerOfEight()
    ensures Power(8) == 0x1_0000_0000_0000_0000
  {
    assert Power(2) == 65536 && Power(4) == 4294967296;
  }

  lemma KeyOfOne(kf: KeyFormat, s: Key)
    requires |kf.layout| >= 1 && kf.layout[0] == |s| > 0
    ensures Fits(kf, [s]) && KeyOf(kf, [s]) == [kf.prefix] + s
  {
    assert [s][..0] == [];
    assert Body(kf, [s]) == Body(kf, [s][..0]) + Padded(s, kf.layout[0]);
    FullIsUnpadded(s, kf.layout[0]);
  }

  ghost function RootKey(v: int): Key {
    [114] + Version(v)
  }

  predicate IsInt64(v: int) { -TWO_TO_63 <= v < TWO_TO_63 }

  /** Byte order of root keys is the order of versions as unsigned numbers: version order, with negative ones last. */
  lemma RootKeyOrder(a: int, b: int)
    requires IsInt64(a) && IsInt64(b)
    ensures Fits(ROOT_KEY_FORMAT, [Version(a)]) && KeyOf(ROOT_KEY_FORMAT, [Version(a)]) == RootKey(a)
    ensures Less(RootKey(a), RootKey(b)) <==> KeyBelow(a, b)
    ensures RootKey(a) == RootKey(b) <==> a == b
  {
    hide BigEndian, Less, Power, Body, Decode;
    PowerOfEight();
    KeyOfOne(ROOT_KEY_FORMAT, Version(a));
    BigEndianOrder(Uint64(a), Uint64(b), 8);
    LessAfterPrefix(114, Version(a), Version(b));
    DecodeInverts(Uint64(a), 8);
    DecodeInverts(Uint64(b), 8);
    assert RootKey(a)[1..] == Version(a) && RootKey(b)[1..] == Version(b);
  }

  /** The first key a reverse iterator over [from, to) yields. */
  method LastInRange(db: set<Key>, from: Key, to: Key) returns (r: Option<Key>)
    ensures r.Some? ==> r.value in db && AtMost(from, r.value) && Less(r.value, to)
    ensures forall k :: k in db && AtMost(from, k) && Less(k, to) ==> r.Some? && AtMost(k, r.value)
  {
    r := None;
    var todo := db;
    while todo != {}
      invariant todo <= db
      invariant r.Some? ==> r.value in db && AtMost(from, r.value) && Less(r.value, to)
      invariant forall k :: k in db && k !in todo && AtMost(from, k) && Less(k, to) ==> r.Some? && AtMost(k, r.value)
      decreases todo
    {
      var k :| k in todo;
      if AtMost(from, k) && Less(k, to) && (r.None? || Less(r.value, k)) {
        forall j | j in db && j !in todo && AtMost(from, j) && Less(j, to) ensures AtMost(j, k) {
          if r.Some? { Further(j, r.value, k); }
        }
        r := Some(k);
      }
      LessIrreflexive(k);
      todo := todo - {k};
    }
  }

  lemma Further(a: Key, b: Key, c: Key)
    requires AtMost(a, b) && Less(b, c)
    ensures AtMost(a, c)
  {
    if Less(c, a) { LessTransitive(b, c, a); }
  }

  /** The keys with the prefix of root keys are those of the roots; the database may hold any other keys besides. */
  ghost predicate HoldsRoots(db: set<Key>, roots: set<int>) {
    && (forall v :: v in roots ==> RootKey(v) in db)
    && forall k :: k in db && |k| > 0 && k[0] == 114 ==> exists v :: v in roots && k == RootKey(v)
  }

  /** A range between two keys with the same first byte holds only keys with that byte. */
  lemma RangeHasPrefix(prefix: Byte, a: Key, b: Key, k: Key)
    requires AtMost([prefix] + a, k) && Less(k, [prefix] + b)
    ensures |k| > 0 && k[0] == prefix
  {
  }

  /**
   * getPreviousVersion on byte keys finds the greatest root strictly below the version, or 0; for a negative version,
   * the greatest root of all.
   */
  method GetPreviousVersion(db: set<Key>, ghost roots: set<int>, version: int) returns (p: int)
    requires IsInt64(version) && forall v :: v in roots ==> 0 <= v < TWO_TO_63
    requires HoldsRoots(db, roots)
    ensures p == PreviousRoot(roots, version)
  {
    hide Less, BigEndian;
    var from := [114] + Version(1);
    var to := [114] + Version(version);
    var found := LastInRange(db, from, to);
    if found.None? {
      p := 0;
      NoneBelow(roots, version, db);
      return;
    }
    RangeHasPrefix(114, Version(1), Version(version), found.value);
    ghost var v :| v in roots && found.value == RootKey(v);
    var segments := ScanBytes(ROOT_KEY_FORMAT, found.value);
    RootKeyScans(v);
    p := Decode(segments[0]);
    GreatestIsPrevious(roots, version, v, db);
  }

  lemma RootKeyScans(v: int)
    requires 0 <= v < TWO_TO_63
    ensures Scanned(ROOT_KEY_FORMAT, RootKey(v), 0, 1) == [Version(v)] && Decode(Version(v)) == v
  {
    hide BigEndian, Power, Body, Decode, Scanned;
    PowerOfEight();
    KeyOfOne(ROOT_KEY_FORMAT, Version(v));
    ScanInvertsKey(ROOT_KEY_FORMAT, [Version(v)]);
    DecodeInverts(v, 8);
  }

  lemma NoneBelow(roots: set<int>, version: int, db: set<Key>)
    requires IsInt64(version) && (forall v :: v in roots ==> 0 <= v < TWO_TO_63) && HoldsRoots(db, roots)
    requires forall k :: k in db ==> !(AtMost(RootKey(1), k) && Less(k, RootKey(version)))
    ensures PreviousRoot(roots, version) == 0
  {
    hide Less, BigEndian, RootKey;
    var p := PreviousRoot(roots, version);
    if p != 0 {
      assert RootKey(p) in db;
      RootKeyOrder(p, version);
      RootKeyOrder(p, 1);
    }
  }

  lemma GreatestIsPrevious(roots: set<int>, version: int, v: int, db: set<Key>)
    requires IsInt64(version) && (forall u :: u in roots ==> 0 <= u < TWO_TO_63) && HoldsRoots(db, roots)
    requires v in roots && AtMost(RootKey(1), RootKey(v)) && Less(RootKey(v), RootKey(version))
    requires forall k :: k in db && AtMost(RootKey(1), k) && Less(k, RootKey(version)) ==> AtMost(k, RootKey(v))
    ensures v == PreviousRoot(roots, version)
  {
    hide Less, BigEndian, RootKey;
    var p := PreviousRoot(roots, version);
    RootKeyOrder(v, 1);
    RootKeyOrder(v, version);
    if p != 0 {
      RootKeyOrder(p, 1);
      RootKeyOrder(p, version);
      RootKeyOrder(v, p);
      assert RootKey(p) in db;
    }
  }

  /** orphanKeyFast: the key written out by hand is the key of the format, for every input; it refuses longer hashes. */
  method OrphanKeyFast(fromVersion: int, toVersion: int, hash: Key) returns (r: Option<Key>)
    ensures var segments := [Version(toVersion), Version(fromVersion), hash];
            && (r.Some? <==> Fits(ORPHAN_KEY_FORMAT, segments))
            && (r.Some? ==> r.value == KeyOf(ORPHAN_KEY_FORMAT, segments))
  {
    hide BigEndian;
    var segments := [Version(toVersion), Version(fromVersion), hash];
    if |hash| > HASH_SIZE {
      assert segments[2] == hash;
      return None;
    }
    var key := new Byte[1 + INT64_SIZE + INT64_SIZE + HASH_SIZE](_ => 0);
    key[0] := 111;
    var n := Place(key, 1, Version(toVersion), INT64_SIZE);
    n := Place(key, n, Version(fromVersion), INT64_SIZE);
    n := Place(key, n, hash, HASH_SIZE);
    OrphanKeyParts(toVersion, fromVersion, hash);
    return Some(key[..]);
  }

  lemma OrphanKeyParts(toVersion: int, fromVersion: int, hash: Key)
    requires |hash| <= HASH_SIZE
    ensures var segments := [Version(toVersion), Version(fromVersion), hash];
            && Fits(ORPHAN_KEY_FORMAT, segments)
            && KeyOf(ORPHAN_KEY_FORMAT, segments) ==
               [111] + Padded(Version(toVersion), INT64_SIZE) + Padded(Version(fromVersion), INT64_SIZE)
                     + Padded(hash, HASH_SIZE)
  {
    hide BigEndian, Padded;
    var segments := [Version(toVersion), Version(fromVersion), hash];
    assert segments[..3] == segments && segments[..0] == [];
    NextKey(ORPHAN_KEY_FORMAT, segments, 0);
    NextKey(ORPHAN_KEY_FORMAT, segments, 1);
    NextKey(ORPHAN_KEY_FORMAT, segments, 2);
  }
}
