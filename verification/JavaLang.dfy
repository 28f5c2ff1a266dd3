/**
 The parts of Java's primitive semantics the cache key depends on: the signed
 8-bit `byte`, the signed 32-bit `int` with two's-complement wrap-around, and the
 return-or-throw outcome of a Java call.
 */
module JavaLang {

  const TWO_31: int := 0x8000_0000
  const TWO_32: int := 0x1_0000_0000

  /** A Java `byte`: signed, -128..127. */
  type JByte = b: int | -128 <= b < 128

  /** A Java `int`: signed 32-bit two's complement. */
  type Int32 = x: int | -0x8000_0000 <= x < 0x8000_0000

  /** The outcome of a Java call: the value it returns or the exception it throws. */
  datatype Result<+T, +E> = Success(value: T) | Failure(error: E)

  /** x and y denote the same 32-bit pattern. */
  predicate Congruent32(x: int, y: int) {
    (x - y) % TWO_32 == 0
  }

  /** The `int` a Java computation produces when its mathematical value is x:
      the unique Int32 with the same low 32 bits. */
  function Wrap32(x: int): (r: Int32)
    ensures Congruent32(x, r)
    ensures -TWO_31 <= x < TWO_31 ==> r == x
  {
    var m := x % TWO_32;
    if m < TWO_31 then m else m - TWO_32
  }

  lemma MultipleIsCongruent(k: int)
    ensures (TWO_32 * k) % TWO_32 == 0
  {
  }

  lemma {:induction false} CongruentAsMultiple(x: int, y: int) returns (k: int)
    requires Congruent32(x, y)
    ensures x - y == TWO_32 * k
  {
    k := (x - y) / TWO_32;
  }

  /** Congruence is an equivalence: symmetric and transitive. */
  lemma {:induction false} CongruentTrans(x: int, y: int, z: int)
    requires Congruent32(x, y) && Congruent32(y, z)
    ensures Congruent32(x, z) && Congruent32(z, x)
  {
    var k1 := CongruentAsMultiple(x, y);
    var k2 := CongruentAsMultiple(y, z);
    assert x - z == TWO_32 * (k1 + k2);
    MultipleIsCongruent(k1 + k2);
    assert z - x == TWO_32 * (-(k1 + k2));
    MultipleIsCongruent(-(k1 + k2));
  }

  /** Multiplying and adding preserve congruence, which is why a fold may wrap at every step. */
  lemma {:induction false} CongruentAffine(x: int, y: int, c: int, d: int)
    requires Congruent32(x, y)
    ensures Congruent32(c * x + d, c * y + d)
  {
    var k := CongruentAsMultiple(x, y);
    assert (c * x + d) - (c * y + d) == c * (x - y);
    assert c * (x - y) == TWO_32 * (c * k);
    MultipleIsCongruent(c * k);
  }

  /** Two Int32 values with the same 32-bit pattern are the same value. */
  lemma {:induction false} Int32Unique(r1: Int32, r2: Int32)
    requires Congruent32(r1, r2)
    ensures r1 == r2
  {
    var k := CongruentAsMultiple(r1, r2);
  }

  /** Wrap32 depends only on the 32-bit pattern of its argument, and it is the only
      Int32 with that pattern. */
  lemma {:induction false} Wrap32Congruent(x: int, y: int)
    ensures Congruent32(x, y) <==> Wrap32(x) == Wrap32(y)
  {
    CongruentTrans(x, Wrap32(x), Wrap32(x));
    CongruentTrans(y, Wrap32(y), Wrap32(y));
    if Congruent32(x, y) {
      CongruentTrans(Wrap32(x), x, y);
      CongruentTrans(Wrap32(x), y, Wrap32(y));
      Int32Unique(Wrap32(x), Wrap32(y));
    }
    if Wrap32(x) == Wrap32(y) {
      CongruentTrans(x, Wrap32(x), y);
    }
  }
}
