/** The end key of a prefix query, and which keys the query then covers. */
module PrefixRanges {
  import opened Bytes
  import opened EtcdSpec

  /** Carries an increment leftwards: 0xff becomes 0x00, the first smaller byte goes up by one. */
  function Carry(p: Key): Option<Key> {
    if p == [] then None
    else
      var n := |p| - 1;
      if p[n] < 255 then Some(p[..n] + [p[n] + 1])
      else
        match Carry(p[..n])
        case Some(q) => Some(q + [0])
        case None => None
  }

  function PrefixEnd(p: Key): Key {
    if p == [] then NoEnd
    else
      match Carry(p)
      case Some(q) => q
      case None => p + [255]
  }

  /** The carried prefix followed by the bytes behind it. */
  function Tailed(c: Option<Key>, tail: Key): Option<Key> {
    if c.Some? then Some(c.value + tail) else None
  }

  lemma CarryOne(p: Key, x: byte)
    ensures Carry(p + [x]) == if x < 255 then Some(p + [x + 1]) else Tailed(Carry(p), [0])
  {
    assert (p + [x])[..|p|] == p;
  }

  lemma CarryNone()
    ensures Carry([]) == None
  {
  }

  lemma WithTail(c: Option<Key>, tail: Key)
    ensures Tailed(c, []) == c && Tailed(Tailed(c, [0]), tail) == Tailed(c, [0] + tail)
  {
    if c.Some? {
      assert c.value + [] == c.value;
      assert (c.value + [0]) + tail == c.value + ([0] + tail);
    }
  }

  method GetPrefixEndKey(prefix: Key) returns (end: Key)
    ensures end == PrefixEnd(prefix)
  {
    if prefix == [] {
      return NoEnd;
    }
    hide Carry;
    end := prefix;
    var i := |prefix|;
    assert prefix[..i] == prefix && end[i..] == [];
    WithTail(Carry(prefix), []);
    while i > 0
      invariant 0 <= i <= |prefix| == |end|
      invariant end[..i] == prefix[..i]
      invariant Carry(prefix) == Tailed(Carry(prefix[..i]), end[i..])
    {
      i := i - 1;
      CarryOne(prefix[..i], prefix[i]);
      assert prefix[..i + 1] == prefix[..i] + [prefix[i]];
      ghost var tail := end[i + 1..];
      if end[i] < 255 {
        end := end[i := end[i] + 1];
        assert end == (prefix[..i] + [prefix[i] + 1]) + tail;
        return;
      }
      end := end[i := 0];
      assert end[i..] == [0] + tail;
      WithTail(Carry(prefix[..i]), tail);
    }
    CarryNone();
    end := prefix + [255];
  }

  lemma {:induction false} LessSameLength(a: Key, b: Key, c: Key)
    requires |a| == |b| && Less(a, b)
    ensures Less(a + c, b)
  {
    if a[0] == b[0] {
      LessSameLength(a[1..], b[1..], c);
      assert (a + c)[1..] == a[1..] + c;
    }
  }

  lemma {:induction false} PrefixIsLeq(p: Key, k: Key)
    requires p <= k
    ensures Leq(p, k)
  {
    if p != [] {
      PrefixIsLeq(p[1..], k[1..]);
      assert p == [p[0]] + p[1..] && k == [k[0]] + k[1..];
    }
  }

  lemma {:induction false} ShorterIsLess(a: Key, x: byte)
    ensures Less(a, a + [x])
  {
    if a != [] {
      ShorterIsLess(a[1..], x);
      assert (a + [x])[1..] == a[1..] + [x];
    }
  }

  lemma {:induction false} CarryGrows(p: Key)
    ensures match Carry(p)
            case Some(q) => |q| == |p| && Less(p, q)
            case None => forall i :: 0 <= i < |p| ==> p[i] == 255
    ensures Carry(p).Some? ==> exists i :: 0 <= i < |p| && p[i] != 255
  {
    if p != [] {
      var n := |p| - 1;
      assert p == p[..n] + [p[n]];
      if p[n] < 255 {
        LessUnderPrefix(p[..n], [p[n]], [p[n] + 1]);
      } else {
        CarryGrows(p[..n]);
        if Carry(p[..n]).Some? {
          var q := Carry(p[..n]).value;
          LessSameLength(p[..n], q, [255]);
          ShorterIsLess(q, 0);
          LessTransitive(p, q, q + [0]);
          var i :| 0 <= i < n && p[..n][i] != 255;
          assert p[i] != 255;
        }
      }
    }
  }

  /** The end key is never taken for a point query, and for a non-empty prefix never for an open end. */
  lemma EndIsAnEnd(p: Key)
    ensures PrefixEnd(p) != [] && (PrefixEnd(p) == NoEnd <==> p == [])
  {
    CarryGrows(p);
  }

  /** With a last byte below 0xff the interval is exactly the keys with the prefix. */
  lemma {:induction false} PlainEnd(p: Key, k: Key)
    requires p != [] && p[|p| - 1] < 255
    ensures Leq(p, k) && Less(k, p[..|p| - 1] + [p[|p| - 1] + 1]) <==> p <= k
  {
    var n := |p| - 1;
    var end := p[..n] + [p[n] + 1];
    if k != [] && n > 0 {
      PlainEnd(p[1..], k[1..]);
      assert p[1..][..n - 1] == p[..n][1..];
      assert end[1..] == p[1..][..n - 1] + [p[1..][n - 1] + 1];
      assert p == [p[0]] + p[1..] && k == [k[0]] + k[1..];
    } else if k != [] {
      assert p == [p[0]];
      assert end == [p[0] + 1];
      assert p[1..] == [] && end[1..] == [];
      assert k == [k[0]] + k[1..];
      assert k[0] == p[0] && k[1..] == [] ==> k == p;
      assert p <= k <==> k[0] == p[0];
      assert Less(p[1..], k[1..]) <==> k[1..] != [];
      assert !Less(k[1..], end[1..]);
      assert Less(k, end) <==> k[0] <= p[0];
    }
  }

  /** The query covers every key with the prefix exactly when some byte of it is below 0xff, or it is empty. */
  lemma PrefixCovers(p: Key)
    ensures (forall k :: p <= k ==> InInterval(k, p, PrefixEnd(p))) <==>
            (p == [] || exists i :: 0 <= i < |p| && p[i] != 255)
  {
    hide Less, Carry;
    CarryGrows(p);
    if p != [] {
      if Carry(p).Some? {
        forall k | p <= k
          ensures InInterval(k, p, PrefixEnd(p))
        {
          PrefixIsLeq(p, k);
          assert k == p + k[|p|..];
          LessSameLength(p, Carry(p).value, k[|p|..]);
        }
      } else {
        var k := p + [255];
        LessIrreflexive(k);
        assert p <= k && !InInterval(k, p, PrefixEnd(p));
      }
    } else {
      forall k | p <= k
        ensures InInterval(k, p, PrefixEnd(p))
      {
        PrefixIsLeq(p, k);
      }
    }
  }

  /** The query covers exactly the keys with the prefix if and only if its last byte is below 0xff, or it is empty. */
  lemma PrefixExact(p: Key)
    ensures (forall k :: p <= k <==> InInterval(k, p, PrefixEnd(p))) <==> (p == [] || p[|p| - 1] != 255)
  {
    if p == [] {
      PrefixCovers(p);
      forall k
        ensures p <= k <==> InInterval(k, p, PrefixEnd(p))
      {
        assert p == k[..0];
      }
    } else if p[|p| - 1] != 255 {
      forall k
        ensures p <= k <==> InInterval(k, p, PrefixEnd(p))
      {
        PlainEnd(p, k);
      }
    } else {
      CarryGrows(p);
      if Carry(p).None? {
        PrefixCovers(p);
      } else {
        var k := Overshoot(p);
        assert !(p <= k) && InInterval(k, p, PrefixEnd(p));
      }
    }
  }

  /** A key that the query for a prefix ending in 0xff also returns. */
  lemma Overshoot(p: Key) returns (k: Key)
    requires p != [] && p[|p| - 1] == 255 && Carry(p).Some?
    ensures !(p <= k) && InInterval(k, p, PrefixEnd(p))
  {
    hide Less;
    var n := |p| - 1;
    CarryGrows(p[..n]);
    k := Carry(p[..n]).value;
    assert p == p[..n] + [255];
    LessSameLength(p[..n], k, [255]);
    ShorterIsLess(k, 0);
    assert n > 0;
    assert PrefixEnd(p) == k + [0];
  }
}
