/** Exclusive or on natural numbers, and its fold over byte sequences (a checksum). */
module ExclusiveOr {

  import opened Common

  function Xor(a: nat, b: nat): nat
    decreases a + b
  {
    if a == 0 && b == 0 then 0 else (if a % 2 == b % 2 then 0 else 1) + 2 * Xor(a / 2, b / 2)
  }

  lemma {:induction false} XorBelow(a: nat, b: nat, bits: nat)
    requires a < Pow2(bits) && b < Pow2(bits)
    ensures Xor(a, b) < Pow2(bits)
    decreases bits
  {
    if bits > 0 {
      XorBelow(a / 2, b / 2, bits - 1);
    }
  }

  function Pow2(n: nat): nat {
    if n == 0 then 1 else 2 * Pow2(n - 1)
  }

  function XorByte(a: Byte, b: Byte): Byte {
    assert Pow2(8) == 256 by { assert Pow2(4) == 16; }
    XorBelow(a, b, 8);
    Xor(a, b)
  }

  lemma {:induction false} XorCommutes(a: nat, b: nat)
    ensures Xor(a, b) == Xor(b, a)
    decreases a + b
  {
    if !(a == 0 && b == 0) {
      XorCommutes(a / 2, b / 2);
    }
  }

  lemma {:induction false} XorZero(a: nat)
    ensures Xor(a, 0) == a && Xor(0, a) == a
  {
    if a != 0 {
      XorZero(a / 2);
    }
  }

  lemma XorHalves(a: nat, b: nat)
    ensures Xor(a, b) % 2 == (if a % 2 == b % 2 then 0 else 1) && Xor(a, b) / 2 == Xor(a / 2, b / 2)
  {
  }

  lemma {:induction false} XorAssociates(a: nat, b: nat, c: nat)
    ensures Xor(Xor(a, b), c) == Xor(a, Xor(b, c))
    decreases a + b + c
  {
    if !(a == 0 && b == 0 && c == 0) {
      XorAssociates(a / 2, b / 2, c / 2);
      XorHalves(a, b);
      XorHalves(b, c);
      XorHalves(Xor(a, b), c);
      XorHalves(a, Xor(b, c));
    }
  }

  // Xor with a fixed number is injective.
  lemma {:induction false} XorCancels(a: nat, b: nat, c: nat)
    requires Xor(a, b) == Xor(a, c)
    ensures b == c
    decreases a + b + c
  {
    if !(a == 0 && b == 0 && c == 0) {
      XorHalves(a, b);
      XorHalves(a, c);
      XorCancels(a / 2, b / 2, c / 2);
    }
  }

  function XorAll(s: seq<Byte>): Byte {
    if s == [] then 0 else XorByte(s[0], XorAll(s[1..]))
  }

  lemma {:induction false} XorAllConcat(s: seq<Byte>, t: seq<Byte>)
    ensures XorAll(s + t) == XorByte(XorAll(s), XorAll(t))
  {
    if s == [] {
      assert s + t == t;
      XorZero(XorAll(t));
    } else {
      XorAllConcat(s[1..], t);
      assert (s + t)[1..] == s[1..] + t;
      XorAssociates(s[0], XorAll(s[1..]), XorAll(t));
    }
  }

  lemma {:induction false} XorAllZeros(n: nat)
    ensures XorAll(seq(n, _ => 0)) == 0
  {
    if n > 0 {
      XorAllZeros(n - 1);
      assert seq(n, _ => 0 as Byte)[1..] == seq(n - 1, _ => 0 as Byte);
      XorZero(0);
    }
  }

  // Changing exactly one byte always changes the checksum.
  lemma {:induction false} XorAllDetects(s: seq<Byte>, p: nat, v: Byte)
    requires p < |s| && v != s[p]
    ensures XorAll(s[p := v]) != XorAll(s)
  {
    if XorAll(s[p := v]) == XorAll(s) {
      if p == 0 {
        XorCommutes(s[0], XorAll(s[1..]));
        XorCommutes(v, XorAll(s[1..]));
        XorCancels(XorAll(s[1..]), s[0], v);
      } else {
        assert s[p := v][1..] == s[1..][p - 1 := v];
        XorAllDetects(s[1..], p - 1, v);
        XorCancels(s[0], XorAll(s[1..]), XorAll(s[1..][p - 1 := v]));
      }
    }
  }

  lemma XorAllNext(s: seq<Byte>, k: nat)
    requires k < |s|
    ensures XorAll(s[..k + 1]) == XorByte(XorAll(s[..k]), s[k])
  {
    assert s[..k + 1] == s[..k] + [s[k]];
    XorAllConcat(s[..k], [s[k]]);
    XorZero(s[k]);
  }

  // Replacing a stretch in the middle keeps the checksum exactly when the two stretches have the same one.
  lemma XorAllMiddle(p: seq<Byte>, a: seq<Byte>, b: seq<Byte>, q: seq<Byte>)
    ensures XorAll(p + (a + q)) == XorAll(p + (b + q)) <==> XorAll(a) == XorAll(b)
  {
    XorAllConcat(p, a + q);
    XorAllConcat(p, b + q);
    XorAllConcat(a, q);
    XorAllConcat(b, q);
    XorCommutes(XorAll(a), XorAll(q));
    XorCommutes(XorAll(b), XorAll(q));
    if XorAll(p + (a + q)) == XorAll(p + (b + q)) {
      XorCancels(XorAll(p), XorAll(a + q), XorAll(b + q));
      XorCancels(XorAll(q), XorAll(a), XorAll(b));
    }
  }
}
