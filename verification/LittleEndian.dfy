/** Bytes, and numbers stored least significant byte first. */
module LittleEndian {

  type Byte = x: int | 0 <= x < 256

  function ToLe(n: nat, len: nat): (r: seq<Byte>)
    ensures |r| == len
  {
    if len == 0 then [] else [n % 256] + ToLe(n / 256, len - 1)
  }

  function FromLe(b: seq<Byte>): nat {
    if b == [] then 0 else b[0] + 256 * FromLe(b[1..])
  }

  function Pow256(len: nat): nat {
    if len == 0 then 1 else 256 * Pow256(len - 1)
  }

  lemma {:induction false} FromToLe(n: nat, len: nat)
    requires n < Pow256(len)
    ensures FromLe(ToLe(n, len)) == n
  {
    if len > 0 {
      FromToLe(n / 256, len - 1);
    }
  }

  lemma {:induction false} ToFromLe(b: seq<Byte>)
    ensures ToLe(FromLe(b), |b|) == b
  {
    if b != [] {
      ToFromLe(b[1..]);
      assert b == [b[0]] + b[1..];
    }
  }

  lemma {:induction false} FromLeBound(b: seq<Byte>)
    ensures FromLe(b) < Pow256(|b|)
  {
    if b != [] {
      FromLeBound(b[1..]);
    }
  }

  /** Eight bytes, least significant first. */
  lemma EightBytes(n: nat)
    ensures ToLe(n, 8) == [
      n % 256, n / 0x100 % 256, n / 0x1_0000 % 256, n / 0x100_0000 % 256,
      n / 0x1_0000_0000 % 256, n / 0x100_0000_0000 % 256, n / 0x1_0000_0000_0000 % 256, n / 0x100_0000_0000_0000 % 256]
  {
    LowAndHigh(n);
    FourBytes(n);
    FourBytes(n / 0x1_0000_0000);
    HighQuotients(n);
  }

  lemma HighQuotients(n: nat)
    ensures var high := n / 0x1_0000_0000;
      && high / 0x100 == n / 0x100_0000_0000
      && high / 0x1_0000 == n / 0x1_0000_0000_0000
      && high / 0x100_0000 == n / 0x100_0000_0000_0000
  {}

  function Shifted(n: nat, bytes: nat): nat {
    if bytes == 0 then n else Shifted(n / 256, bytes - 1)
  }

  lemma {:induction false} Split(n: nat, low: nat, high: nat)
    ensures ToLe(n, low + high) == ToLe(n, low) + ToLe(Shifted(n, low), high)
  {
    if low > 0 {
      Split(n / 256, low - 1, high);
    }
  }

  lemma LowAndHigh(n: nat)
    ensures ToLe(n, 8) == ToLe(n, 4) + ToLe(n / 0x1_0000_0000, 4)
  {
    Split(n, 4, 4);
    assert Shifted(n, 4) == Shifted(n / 256, 3) == Shifted(n / 256 / 256, 2) == Shifted(n / 256 / 256 / 256, 1);
    assert Shifted(n, 4) == n / 0x1_0000_0000;
  }

  lemma FourBytes(n: nat)
    ensures ToLe(n, 4) == [n % 256, n / 0x100 % 256, n / 0x1_0000 % 256, n / 0x100_0000 % 256]
  {
    var b1, b2, b3 := n / 0x100, n / 0x1_0000, n / 0x100_0000;
    assert b1 / 0x100 == b2 && b2 / 0x100 == b3;
    assert ToLe(n, 4) == [n % 256] + ToLe(b1, 3);
    assert ToLe(b1, 3) == [b1 % 256] + ToLe(b2, 2);
    assert ToLe(b2, 2) == [b2 % 256] + ToLe(b3, 1);
    assert ToLe(b3, 1) == [b3 % 256] + ToLe(b3 / 256, 0);
  }

  lemma PowersOf256()
    ensures Pow256(4) == 0x1_0000_0000
    ensures Pow256(8) == 0x1_0000_0000_0000_0000
  {
    assert Pow256(4) == 0x1_0000_0000;
    assert Pow256(6) == 256 * 256 * Pow256(4);
    assert Pow256(8) == 256 * 256 * Pow256(6);
  }
}
