/** Octet strings as big-endian numbers, six-octet MAC addresses and C's memcmp order on them. */
module MacAddress {
  import opened Bits

  type Mac = s: seq<byte> | |s| == 6 witness [0, 0, 0, 0, 0, 0]

  const EMPTY: Mac := [0, 0, 0, 0, 0, 0]

  /** The number written by the octets, most significant first. */
  function Num(s: seq<byte>): nat {
    if s == [] then 0 else Num(s[..|s| - 1]) * 256 + s[|s| - 1]
  }

  lemma {:induction false} NumBound(s: seq<byte>)
    ensures Num(s) < Pow2(8 * |s|)
    decreases |s|
  {
    if s != [] {
      NumBound(s[..|s| - 1]);
      Pow2Add(8 * (|s| - 1), 8);
      assert Pow2(8) == 256;
    }
  }

  lemma {:induction false} NumInjective(a: seq<byte>, b: seq<byte>)
    requires |a| == |b| && Num(a) == Num(b)
    ensures a == b
    decreases |a|
  {
    if a != [] {
      NumInjective(a[..|a| - 1], b[..|b| - 1]);
      assert a == a[..|a| - 1] + [a[|a| - 1]] && b == b[..|b| - 1] + [b[|b| - 1]];
    }
  }

  lemma {:induction false} EmptyIsZero(a: Mac)
    ensures Num(a) == 0 <==> a == EMPTY
  {
    ZeroNum(EMPTY);
    if Num(a) == 0 { NumInjective(a, EMPTY); }
  }

  lemma {:induction false} ZeroNum(s: seq<byte>)
    ensures Num(s) == 0 <==> forall i :: 0 <= i < |s| ==> s[i] == 0
    decreases |s|
  {
    if s != [] {
      ZeroNum(s[..|s| - 1]);
      assert s == s[..|s| - 1] + [s[|s| - 1]];
    }
  }

  lemma {:induction false} NumConcat(a: seq<byte>, b: seq<byte>)
    ensures Num(a + b) == Num(a) * Pow2(8 * |b|) + Num(b)
    decreases |b|
  {
    if b == [] {
      assert a + b == a;
    } else {
      var b' := b[..|b| - 1];
      NumConcat(a, b');
      assert (a + b)[..|a + b| - 1] == a + b';
      Pow2Add(8 * |b'|, 8);
      assert Pow2(8) == 256;
      assert Num(a) * Pow2(8 * |b'|) * 256 == Num(a) * Pow2(8 * |b|);
    }
  }

  /** C's memcmp: the sign of the first difference. */
  function MemCmp(a: seq<byte>, b: seq<byte>): int
    requires |a| == |b|
  {
    if a == [] then 0
    else if a[0] != b[0] then a[0] - b[0]
    else MemCmp(a[1..], b[1..])
  }

  /** memcmp compares the numbers. */
  lemma {:induction false} MemCmpIsOrder(a: seq<byte>, b: seq<byte>)
    requires |a| == |b|
    ensures MemCmp(a, b) < 0 <==> Num(a) < Num(b)
    ensures MemCmp(a, b) == 0 <==> a == b
    ensures MemCmp(a, b) == 0 <==> Num(a) == Num(b)
    decreases |a|
  {
    if a != [] {
      var a', b' := a[1..], b[1..];
      MemCmpIsOrder(a', b');
      assert a == [a[0]] + a' && b == [b[0]] + b';
      NumConcat([a[0]], a'); NumConcat([b[0]], b');
      NumBound(a'); NumBound(b');
      assert Num([a[0]]) == a[0] && Num([b[0]]) == b[0];
      hide Num, Pow2;
      HeadDecides(a[0], b[0], Pow2(8 * |a'|), Num(a'), Num(b'));
    }
  }

  lemma HeadDecides(x: nat, y: nat, p: nat, u: nat, v: nat)
    requires u < p && v < p
    ensures x < y ==> x * p + u < y * p + v
    ensures y < x ==> y * p + v < x * p + u
  {
    if x < y { assert (x + 1) * p <= y * p; }
    if y < x { assert (y + 1) * p <= x * p; }
  }

  /** The octets of the next number. */
  function Inc(s: seq<byte>): (r: seq<byte>)
    ensures |r| == |s|
  {
    if s == [] then []
    else if s[|s| - 1] == 255 then Inc(s[..|s| - 1]) + [0]
    else s[..|s| - 1] + [s[|s| - 1] + 1]
  }

  lemma RollOver(n: nat, p: nat)
    requires n < p
    ensures (n + 1) % p == if n + 1 == p then 0 else n + 1
  {
  }

  /** Counting modulo 2^(8n), that is, rolling over from all ones to zero. */
  lemma {:induction false} IncNum(s: seq<byte>)
    ensures Num(Inc(s)) == (Num(s) + 1) % Pow2(8 * |s|)
    decreases |s|
  {
    NumBound(s);
    RollOver(Num(s), Pow2(8 * |s|));
    if s != [] {
      var h := s[..|s| - 1];
      IncNum(h);
      NumBound(h);
      RollOver(Num(h), Pow2(8 * |h|));
      assert Pow2(8 * |s|) == 256 * Pow2(8 * |h|) by { Pow2Add(8 * |h|, 8); assert Pow2(8) == 256; }
      hide Pow2;
      assert Inc(s)[..|s| - 1] == if s[|s| - 1] == 255 then Inc(h) else h;
    }
  }

  lemma {:induction false} IncNothing()
    ensures Inc([]) == []
  {
  }

  lemma {:induction false} IncLast(h: seq<byte>, x: byte)
    ensures Inc(h + [x]) == if x == 255 then Inc(h) + [0] else h + [x + 1]
  {
    assert (h + [x])[..|h|] == h;
  }

  /** inc_byte_array: increment the big-endian counter in place. */
  method IncByteArray(counter: array<byte>)
    modifies counter
    ensures counter[..] == Inc(old(counter[..]))
  {
    hide Inc;
    ghost var was, low := counter[..], [];
    var pos := counter.Length - 1;
    assert was[..pos + 1] == was;
    IncNothing();
    while pos >= 0
      invariant -1 <= pos < counter.Length == |was|
      invariant counter[..] == was[..pos + 1] + low && |low| == counter.Length - 1 - pos
      invariant Inc(was) == Inc(was[..pos + 1]) + low
    {
      ghost var h, x, before := was[..pos], was[pos], counter[..];
      assert was[..pos + 1] == h + [x];
      IncLast(h, x);
      assert before[pos] == x;
      var octet: int := counter[pos];
      counter[pos] := (octet + 1) % 256;
      assert counter[..] == before[pos := counter[pos]];
      Placed(h, x, counter[pos], low);
      if counter[pos] != 0 {
        break;
      }
      low := [0] + low;
      pos := pos - 1;
    }
  }

  lemma Placed(h: seq<byte>, x: byte, y: byte, low: seq<byte>)
    ensures (h + [x] + low)[|h| := y] == h + [y] + low == h + ([y] + low)
  {
  }
}
