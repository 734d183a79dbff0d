/** The list operations the device classes lean on: counting occurrences,
    Python's `list.remove` (which drops the first occurrence only) and
    summing a per-device quantity over a list of devices.
 */
module Lists {
  import opened Model

  /** Number of times `x` occurs in `s`. */
  function Count(s: seq<DeviceId>, x: DeviceId): nat
    ensures Count(s, x) == 0 <==> x !in s
    ensures Count(s, x) <= |s|
  {
    if |s| == 0 then 0 else (if s[0] == x then 1 else 0) + Count(s[1..], x)
  }

  lemma {:induction false} CountConcat(a: seq<DeviceId>, b: seq<DeviceId>, x: DeviceId)
    ensures Count(a + b, x) == Count(a, x) + Count(b, x)
    decreases |a|
  {
    if |a| > 0 {
      assert (a + b)[1..] == a[1..] + b;
      CountConcat(a[1..], b, x);
    } else {
      assert a + b == b;
    }
  }

  lemma CountAppend(s: seq<DeviceId>, x: DeviceId, y: DeviceId)
    ensures Count(s + [x], y) == Count(s, y) + (if x == y then 1 else 0)
  {
    CountConcat(s, [x], y);
  }

  /** Position of the first occurrence of `x` in `s`. */
  function IndexOf(s: seq<DeviceId>, x: DeviceId): (k: nat)
    requires x in s
    ensures k < |s| && s[k] == x && x !in s[..k]
  {
    if s[0] == x then 0
    else
      var k := IndexOf(s[1..], x);
      assert s[..k + 1] == [s[0]] + s[1..][..k];
      k + 1
  }

  /** `s.remove(x)`: the list without the first occurrence of `x`. */
  function RemoveFirst(s: seq<DeviceId>, x: DeviceId): (r: seq<DeviceId>)
    requires x in s
    ensures |r| == |s| - 1
  {
    var k := IndexOf(s, x);
    s[..k] + s[k + 1..]
  }

  /** Removing the first `x` lowers the count of `x` by one and leaves every
      other count alone. */
  lemma CountRemoveFirst(s: seq<DeviceId>, x: DeviceId, y: DeviceId)
    requires x in s
    ensures Count(RemoveFirst(s, x), y) == Count(s, y) - (if y == x then 1 else 0)
  {
    var k := IndexOf(s, x);
    assert s == s[..k] + ([s[k]] + s[k + 1..]);
    CountConcat(s[..k], [s[k]] + s[k + 1..], y);
    CountConcat([s[k]], s[k + 1..], y);
    CountConcat(s[..k], s[k + 1..], y);
  }

  /** Removing the first `x` takes one `x` out of the list's multiset. */
  lemma MultisetRemoveFirst(s: seq<DeviceId>, x: DeviceId)
    requires x in s
    ensures multiset(RemoveFirst(s, x)) == multiset(s) - multiset{x}
  {
    var k := IndexOf(s, x);
    assert s == s[..k] + [x] + s[k + 1..];
  }

  /** Appending `x` to a list without it and removing it again gives the
      list back. */
  lemma RemoveAppended(s: seq<DeviceId>, x: DeviceId)
    requires x !in s
    ensures RemoveFirst(s + [x], x) == s
  {
    var t := s + [x];
    var k := IndexOf(t, x);
    assert t[|s|] == x;
    assert k == |s|;
    assert t[..k] == s;
  }

  // -----------------------------------------------------------------------
  // Sums

  /** The sum of `f` over the devices of `ids`, in list order. */
  function SumOf(ids: seq<DeviceId>, f: DeviceId -> int): int {
    if |ids| == 0 then 0 else SumOf(ids[..|ids| - 1], f) + f(ids[|ids| - 1])
  }

  lemma SumOfAppend(ids: seq<DeviceId>, x: DeviceId, f: DeviceId -> int)
    ensures SumOf(ids + [x], f) == SumOf(ids, f) + f(x)
  {
    assert (ids + [x])[..|ids|] == ids;
  }

  lemma {:induction false} SumOfConcat(a: seq<DeviceId>, b: seq<DeviceId>, f: DeviceId -> int)
    ensures SumOf(a + b, f) == SumOf(a, f) + SumOf(b, f)
    decreases |b|
  {
    if |b| == 0 {
      assert a + b == a;
    } else {
      var c := b[..|b| - 1];
      assert a + b == (a + c) + [b[|b| - 1]];
      SumOfAppend(a + c, b[|b| - 1], f);
      SumOfConcat(a, c, f);
    }
  }

  /** Removing the first `x` takes `f(x)` off the sum. */
  lemma SumOfRemoveFirst(ids: seq<DeviceId>, x: DeviceId, f: DeviceId -> int)
    requires x in ids
    ensures SumOf(RemoveFirst(ids, x), f) == SumOf(ids, f) - f(x)
  {
    var k := IndexOf(ids, x);
    assert ids == ids[..k] + ([x] + ids[k + 1..]);
    SumOfConcat(ids[..k], [x] + ids[k + 1..], f);
    SumOfConcat([x], ids[k + 1..], f);
    SumOfConcat(ids[..k], ids[k + 1..], f);
    assert SumOf([x], f) == f(x) by {
      assert [x][..0] == [];
    }
  }

  /** When `g` differs from `f` by `delta` at `x` only, the sums differ by
      `delta` once per occurrence of `x`. */
  lemma {:induction false} SumOfChangedAt(ids: seq<DeviceId>, f: DeviceId -> int, g: DeviceId -> int, x: DeviceId, delta: int)
    requires forall k :: 0 <= k < |ids| ==> g(ids[k]) == f(ids[k]) + (if ids[k] == x then delta else 0)
    ensures SumOf(ids, g) == SumOf(ids, f) + Count(ids, x) * delta
    decreases |ids|
  {
    if |ids| > 0 {
      var init := ids[..|ids| - 1];
      var last := ids[|ids| - 1];
      assert forall k :: 0 <= k < |init| ==> init[k] == ids[k];
      SumOfChangedAt(init, f, g, x, delta);
      assert ids == init + [last];
      CountConcat(init, [last], x);
      var c := Count(init, x);
      var here := if last == x then 1 else 0;
      assert Count([last], x) == here;
      assert g(last) == f(last) + here * delta;
      assert (c + here) * delta == c * delta + here * delta;
    }
  }

  /** Sums of functions that agree on the list are equal. */
  lemma SumOfAgree(ids: seq<DeviceId>, f: DeviceId -> int, g: DeviceId -> int)
    requires forall k :: 0 <= k < |ids| ==> g(ids[k]) == f(ids[k])
    ensures SumOf(ids, g) == SumOf(ids, f)
  {
    SumOfChangedAt(ids, f, g, 0, 0);
  }

  /** A sum of non-negative multiples of `m` is a non-negative multiple of
      `m`. */
  lemma {:induction false} SumOfMultiples(ids: seq<DeviceId>, f: DeviceId -> int, m: int)
    requires m > 0
    requires forall k :: 0 <= k < |ids| ==> f(ids[k]) >= 0 && f(ids[k]) % m == 0
    ensures SumOf(ids, f) >= 0 && SumOf(ids, f) % m == 0
    decreases |ids|
  {
    if |ids| > 0 {
      var init := ids[..|ids| - 1];
      assert forall k :: 0 <= k < |init| ==> init[k] == ids[k];
      SumOfMultiples(init, f, m);
      AddMultiples(SumOf(init, f), f(ids[|ids| - 1]), m);
    }
  }

  lemma AddMultiples(a: int, b: int, m: int)
    requires m > 0 && a % m == 0 && b % m == 0
    ensures (a + b) % m == 0
  {
    var q := a / m + b / m;
    assert a + b == q * m;
    MultipleMod(q, m);
  }

  lemma MultipleMod(q: int, m: int)
    requires m > 0
    ensures (q * m) % m == 0
  {
    var x := q * m;
    var d := q - x / m;
    assert m * d == x % m;
  }
}
