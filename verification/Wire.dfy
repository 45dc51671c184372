/**
  Bytes, and integers in network byte order (ExternalLib/libzmq/src/wire.hpp).
 */
module Wire {
  type Byte = x: int | 0 <= x < 256

  function Pow256(n: nat): nat {
    if n == 0 then 1 else 256 * Pow256(n - 1)
  }

  // The `n` low bytes of `v`, the most significant one first.
  function Put(v: nat, n: nat): (r: seq<Byte>)
    ensures |r| == n
  {
    if n == 0 then [] else Put(v / 256, n - 1) + [v % 256]
  }

  function Get(s: seq<Byte>): nat {
    if s == [] then 0 else Get(s[..|s| - 1]) * 256 + s[|s| - 1]
  }

  lemma SmallSize(n: nat)
    requires n <= 255
    ensures Put(n, 4) == [0, 0, 0, n]
  {
    assert Put(0, 3) == [0, 0, 0] by {
      assert Put(0, 2) == [0, 0] by { assert Put(0, 1) == [0]; }
    }
  }

  lemma {:induction false} GetPut(v: nat, n: nat)
    requires v < Pow256(n)
    ensures Get(Put(v, n)) == v
  {
    if n > 0 {
      GetPut(v / 256, n - 1);
      assert Put(v, n)[..n - 1] == Put(v / 256, n - 1);
    }
  }

  lemma {:induction false} PutGet(s: seq<Byte>)
    ensures Get(s) < Pow256(|s|) && Put(Get(s), |s|) == s
  {
    if s != [] {
      PutGet(s[..|s| - 1]);
      assert s == s[..|s| - 1] + [s[|s| - 1]];
    }
  }

  // Byte `i` is what shifting right and masking gives.
  lemma {:induction false} PutAt(v: nat, n: nat, i: nat)
    requires i < n
    ensures Pow256(n - 1 - i) > 0 && Put(v, n)[i] == v / Pow256(n - 1 - i) % 256
  {
    if i < n - 1 {
      PutAt(v / 256, n - 1, i);
      DivDiv(v, Pow256(n - 2 - i));
    }
  }

  lemma DivDiv(v: nat, k: nat)
    requires k > 0
    ensures v / 256 / k == v / (256 * k)
  {
    var q, r := v / (256 * k), v % (256 * k);
    assert r == 256 * (r / 256) + r % 256;
    assert v / 256 == q * k + r / 256 by { assert v == 256 * (q * k + r / 256) + r % 256; }
    Quotient(v / 256, k, q, r / 256);
  }

  lemma Quotient(v: nat, k: nat, q: nat, r: nat)
    requires k > 0 && v == q * k + r && r < k
    ensures v / k == q
  {
    var d := v / k - q;
    assert d * k == r - v % k;
    Grows(d, k);
  }

  lemma Grows(d: int, k: nat)
    ensures (d >= 1 ==> d * k >= k) && (d <= -1 ==> d * k + k <= 0)
  {
  }

  lemma Powers()
    ensures Pow256(1) == 0x100 && Pow256(4) == 0x1_0000_0000 && Pow256(8) == 0x1_0000_0000_0000_0000
  {
    assert Pow256(2) == 0x1_0000;
    assert Pow256(3) == 0x100_0000;
    assert Pow256(4) == 0x1_0000_0000;
    assert Pow256(6) == 0x1_0000_0000_0000;
  }

  // A slice of a slice.
  lemma Shifted(d: seq<Byte>, at: nat, i: nat, j: nat)
    requires at <= i <= j <= |d|
    ensures d[at..][i - at..j - at] == d[i..j] && d[at..][i - at..] == d[i..]
  {
  }

  // `s` with `data` written over it at `at`.
  ghost function Overlaid(s: seq<Byte>, at: nat, data: seq<Byte>): (r: seq<Byte>)
    requires at + |data| <= |s|
    ensures |r| == |s|
  {
    s[..at] + data + s[at + |data|..]
  }

  // Writing on behind what was written.
  lemma OverlaidTwice(s: seq<Byte>, at: nat, a: seq<Byte>, b: seq<Byte>)
    requires at + |a| + |b| <= |s|
    ensures Overlaid(Overlaid(s, at, a), at + |a|, b) == Overlaid(s, at, a + b)
  {
  }

  // put_uint32, and write_network_order of ExternalLib/cppzmq/include/zmq_addon.hpp:77-88
  method PutUint32(buf: array<Byte>, at: nat, value: nat)
    requires at + 4 <= buf.Length && value < 0x1_0000_0000
    modifies buf
    ensures buf[..] == Overlaid(old(buf[..]), at, Put(value, 4))
  {
    ghost var s := buf[..];
    buf[at] := value / 0x100_0000 % 256;
    buf[at + 1] := value / 0x1_0000 % 256;
    buf[at + 2] := value / 0x100 % 256;
    buf[at + 3] := value % 256;
    PutFour(value);
    assert buf[..] == s[..at] + Put(value, 4) + s[at + 4..];
  }

  lemma PutFour(v: nat)
    ensures Put(v, 4) == [v / 0x100_0000 % 256, v / 0x1_0000 % 256, v / 0x100 % 256, v % 256]
  {
    PutAt(v, 4, 0);
    PutAt(v, 4, 1);
    PutAt(v, 4, 2);
    assert Pow256(1) == 0x100 && Pow256(2) == 0x1_0000 && Pow256(3) == 0x100_0000;
  }

  // memcpy
  method CopyTo(buf: array<Byte>, at: nat, data: seq<Byte>)
    requires at + |data| <= buf.Length
    modifies buf
    ensures buf[..] == Overlaid(old(buf[..]), at, data)
  {
    ghost var s := buf[..];
    for i := 0 to |data|
      invariant forall k :: 0 <= k < |s| ==> buf[k] == if at <= k < at + i then data[k - at] else s[k]
    {
      buf[at + i] := data[i];
    }
    assert buf[..] == s[..at] + data + s[at + |data|..];
  }
}
