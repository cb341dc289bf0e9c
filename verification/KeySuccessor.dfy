/** cpIncr: the next byte string of the same length. */
module KeySuccessor {
  import opened ByteOrder
  import opened Tree

  /** Big-endian increment, or None when every byte is 0xFF. */
  function Carry(k: Key): (r: Option<Key>)
    ensures r.Some? ==> |r.value| == |k|
    decreases k
  {
    if k == [] then None
    else
      var init, last := k[..|k| - 1], k[|k| - 1];
      if last < 255 then Some(init + [last + 1])
      else
        var r := Carry(init);
        if r.None? then None else Some(r.value + [0])
  }

  /** cpIncr: incremented, or with a zero byte appended when it cannot be. */
  function Incr(k: Key): Key {
    if Carry(k).Some? then Carry(k).value else k + [0]
  }

  function Extend(c: Option<Key>, tail: Key): Option<Key> {
    if c.None? then None else Some(c.value + tail)
  }

  /** One turn of the loop: the carry out of the first i + 1 bytes. */
  lemma CarryStep(bz: Key, i: nat, tail: Key)
    requires i < |bz|
    ensures bz[i] < 255 ==> Extend(Carry(bz[..i + 1]), tail) == Some(bz[..i] + [bz[i] + 1] + tail)
    ensures bz[i] == 255 ==> Extend(Carry(bz[..i + 1]), tail) == Extend(Carry(bz[..i]), [0] + tail)
  {
    assert bz[..i + 1][..i] == bz[..i];
    if bz[i] == 255 && Carry(bz[..i]).Some? {
      assert (Carry(bz[..i]).value + [0]) + tail == Carry(bz[..i]).value + ([0] + tail);
    }
  }

  lemma CarryEnds(bz: Key, tail: Key)
    ensures Extend(Carry(bz[..|bz|]), []) == Carry(bz) && Extend(Carry(bz[..0]), tail) == None
  {
    assert bz[..|bz|] == bz;
    if Carry(bz).Some? { assert Carry(bz).value + [] == Carry(bz).value; }
  }

  method CpIncr(bz: Key) returns (r: Key)
    ensures r == Incr(bz)
  {
    hide Carry, Extend;
    var ret := new Byte[|bz|](i requires 0 <= i < |bz| => bz[i]);
    var i := |bz| - 1;
    CarryEnds(bz, []);
    assert ret[|bz|..] == [];
    while i >= 0
      invariant -1 <= i < |bz| && (i == -1 ==> bz == [])
      invariant forall j :: 0 <= j <= i ==> ret[j] == bz[j]
      invariant Carry(bz) == Extend(Carry(bz[..i + 1]), ret[i + 1..])
    {
      ghost var tail := ret[i + 1..];
      CarryStep(bz, i, tail);
      if ret[i] < 255 {
        ret[i] := ret[i] + 1;
        assert ret[..] == bz[..i] + [bz[i] + 1] + tail;
        return ret[..];
      }
      ret[i] := 0;
      assert ret[i..] == [0] + tail;
      if i == 0 {
        CarryEnds(bz, ret[0..]);
        return bz + [0];
      }
      i := i - 1;
    }
    return [0];
  }

  /** The increment of a key is above it, and no key of the same length lies between. */
  lemma {:induction false} IncrIsNext(k: Key, x: Key)
    ensures Less(k, Incr(k))
    ensures |x| == |k| && Less(k, x) ==> Carry(k).Some? && AtMost(Incr(k), x)
  {
    if Carry(k).Some? { CarryIsNext(k, x); } else { AppendIsAbove(k); }
    if |x| == |k| && Less(k, x) { SomethingAbove(k, x); CarryIsNext(k, x); }
  }

  lemma {:induction false} AppendIsAbove(k: Key)
    ensures Less(k, k + [0])
  {
    if k != [] {
      AppendIsAbove(k[1..]);
      assert (k + [0])[1..] == k[1..] + [0];
    }
  }

  lemma {:induction false} SomethingAbove(k: Key, x: Key)
    requires |x| == |k| && Less(k, x)
    ensures Carry(k).Some?
    decreases k
  {
    LessByLast(k, x);
    var n := |k| - 1;
    if k[n] == 255 { SomethingAbove(k[..n], x[..n]); }
  }

  lemma {:induction false} CarryIsNext(k: Key, x: Key)
    requires Carry(k).Some?
    ensures Less(k, Carry(k).value)
    ensures |x| == |k| && Less(k, x) ==> AtMost(Carry(k).value, x)
    decreases k
  {
    var n, c := |k| - 1, Carry(k).value;
    LessByLast(k, c);
    LessIrreflexive(k[..n]);
    if k[n] < 255 {
      assert c[..n] == k[..n];
    } else {
      CarryIsNext(k[..n], if |x| == |k| then x[..n] else k[..n]);
      assert c[..n] == Carry(k[..n]).value;
    }
    if |x| == |k| && Less(k, x) {
      LessByLast(k, x);
      LessByLast(x, c);
      LessTotal(k[..n], x[..n]);
      LessTotal(c[..n], x[..n]);
      if Less(x[..n], k[..n]) { LessAsymmetric(x[..n], k[..n]); }
      if k[n] < 255 && Less(k[..n], x[..n]) { LessAsymmetric(k[..n], x[..n]); }
    }
  }
}
