/** Octets, optional values and big-endian integers, shared by every wire format. */
module Bytes {

  type byte = b: int | 0 <= b < 256

  datatype Option<+T> = None | Some(value: T)

  const U16_MAX := 0xFFFF
  const U32_MAX := 0xFFFF_FFFF
  const U64_MAX := 0xFFFF_FFFF_FFFF_FFFF

  lemma Reassociate<T>(a: seq<T>, b: seq<T>, c: seq<T>)
    ensures a + b + c == a + (b + c)
  {
  }

  function Min(a: int, b: int): (r: int) {
    if a <= b then a else b
  }

  function Max(a: int, b: int): (r: int) {
    if a <= b then b else a
  }

  function One(b: bool): (n: nat) {
    if b then 1 else 0
  }

  /** 256 to the power n: the number of values n octets can hold. */
  function Pow256(n: nat): (p: nat)
    ensures p >= 1
  {
    if n == 0 then 1 else 256 * Pow256(n - 1)
  }

  /** The low `width` octets of v, most significant first. */
  function ToBe(v: nat, width: nat): (s: seq<byte>)
    ensures |s| == width
  {
    if width == 0 then [] else ToBe(v / 256, width - 1) + [v % 256]
  }

  function FromBe(s: seq<byte>): (v: nat)
    ensures v < Pow256(|s|)
  {
    if s == [] then 0 else FromBe(s[..|s| - 1]) * 256 + s[|s| - 1]
  }

  lemma PowValues()
    ensures Pow256(2) == U16_MAX + 1
    ensures Pow256(4) == U32_MAX + 1
    ensures Pow256(8) == U64_MAX + 1
  {
    assert Pow256(1) == 256;
    assert Pow256(2) == 65536;
    assert Pow256(4) == 256 * Pow256(3);
    assert Pow256(6) == 256 * Pow256(5);
    assert Pow256(8) == 256 * Pow256(7);
  }

  lemma QuotientBelow(v: nat, p: nat)
    requires v < 256 * p
    ensures v / 256 < p && v / 256 * 256 + v % 256 == v
  {
  }

  lemma FromBeLast(s: seq<byte>, b: byte)
    ensures FromBe(s + [b]) == FromBe(s) * 256 + b
  {
    assert (s + [b])[..|s|] == s;
  }

  lemma {:induction false} FromBeToBe(v: nat, width: nat)
    requires v < Pow256(width)
    ensures FromBe(ToBe(v, width)) == v
  {
    if width > 0 {
      QuotientBelow(v, Pow256(width - 1));
      calc {
        FromBe(ToBe(v, width));
      ==
        FromBe(ToBe(v / 256, width - 1) + [v % 256]);
      ==  { FromBeLast(ToBe(v / 256, width - 1), v % 256); }
        FromBe(ToBe(v / 256, width - 1)) * 256 + v % 256;
      ==  { FromBeToBe(v / 256, width - 1); }
        v / 256 * 256 + v % 256;
      }
    }
  }

  /** The first octet counts most. */
  lemma {:induction false} FromBeFirst(b: byte, s: seq<byte>)
    ensures FromBe([b] + s) == b * Pow256(|s|) + FromBe(s)
  {
    if s == [] {
      assert [b] + s == [] + [b];
      FromBeLast([], b);
    } else {
      var init, last := s[..|s| - 1], s[|s| - 1];
      assert [b] + s == ([b] + init) + [last];
      FromBeFirst(b, init);
      FromBeLast([b] + init, last);
      assert b * Pow256(|s|) == b * Pow256(|init|) * 256;
    }
  }

  lemma {:induction false} ToBeFromBe(s: seq<byte>)
    ensures ToBe(FromBe(s), |s|) == s
  {
    if s != [] {
      ToBeFromBe(s[..|s| - 1]);
      assert s == s[..|s| - 1] + [s[|s| - 1]];
    }
  }
}
