/**
 The two `java.util.Arrays` operations a cache key is built on, over a `byte[]`
 reference: `Arrays.hashCode(byte[])` and `Arrays.equals(byte[], byte[])`.
 Both accept a null array.
 */
module JavaArrays {
  import opened JavaLang

  /** A Java `byte[]` reference: null, or an array whose contents are not mutated
      after it is handed over. */
  datatype ByteArray = NullArray | Array(elems: seq<JByte>)

  function Pow31(n: nat): (p: nat)
    ensures p >= 1
  {
    if n == 0 then 1 else 31 * Pow31(n - 1)
  }

  /** The polynomial s[0]*31^(n-1) + s[1]*31^(n-2) + ... + s[n-1] over the signed bytes, n = |s|. */
  function WeightedSum(s: seq<JByte>): int
  {
    if |s| == 0 then 0 else s[0] * Pow31(|s| - 1) + WeightedSum(s[1..])
  }

  /** The value `Arrays.hashCode` is documented to return, in closed form: 0 for null,
      otherwise 31^n + WeightedSum(s) reduced to a 32-bit `int`. */
  function HashSpec(a: ByteArray): Int32
  {
    match a
    case NullArray => 0
    case Array(s) => Wrap32(Pow31(|s|) + WeightedSum(s))
  }

  /** The JDK loop `for (byte b : a) acc = 31 * acc + b;` with `int` overflow at every step. */
  function HashFold(acc: Int32, s: seq<JByte>): Int32
    decreases |s|
  {
    if |s| == 0 then acc else HashFold(Wrap32(31 * acc + s[0]), s[1..])
  }

  /** The same loop over unbounded integers: the exact value the JDK loop approximates. */
  function ExactFold(acc: int, s: seq<JByte>): int
    decreases |s|
  {
    if |s| == 0 then acc else ExactFold(31 * acc + s[0], s[1..])
  }

  /** Wrapping at every step gives the same `int` as running the loop exactly and
      wrapping once at the end. */
  lemma {:induction false} HashFoldWrapsExactFold(acc: Int32, s: seq<JByte>)
    ensures HashFold(acc, s) == Wrap32(ExactFold(acc, s))
    decreases |s|
  {
    if |s| != 0 {
      var x := 31 * acc + s[0];
      HashFoldWrapsExactFold(Wrap32(x), s[1..]);
      ExactFoldCongruent(Wrap32(x), x, s[1..]);
    }
  }

  /** The exact loop preserves congruence of its starting values modulo 2^32. */
  lemma {:induction false} ExactFoldCongruent(a: int, b: int, s: seq<JByte>)
    requires Congruent32(a, b)
    ensures Wrap32(ExactFold(a, s)) == Wrap32(ExactFold(b, s))
    decreases |s|
  {
    if |s| == 0 {
      Wrap32Congruent(a, b);
    } else {
      CongruentAffine(a, b, 31, s[0]);
      ExactFoldCongruent(31 * a + s[0], 31 * b + s[0], s[1..]);
    }
  }

  /** The exact loop computes the polynomial acc*31^n + WeightedSum(s) (Horner's rule). */
  lemma {:induction false} ExactFoldClosedForm(acc: int, s: seq<JByte>)
    ensures ExactFold(acc, s) == acc * Pow31(|s|) + WeightedSum(s)
    decreases |s|
  {
    if |s| != 0 {
      var p := Pow31(|s| - 1);
      var w := WeightedSum(s[1..]);
      ExactFoldClosedForm(31 * acc + s[0], s[1..]);
      assert Pow31(|s|) == 31 * p;
      assert WeightedSum(s) == s[0] * p + w;
      HornerStep(acc, s[0], p, w);
    }
  }

  lemma HornerStep(acc: int, b: int, p: int, w: int)
    ensures (31 * acc + b) * p + w == acc * (31 * p) + (b * p + w)
  {
  }

  /** `Arrays.hashCode(byte[])`: 0 for a null array, otherwise the fold from 1. */
  function ArraysHashCode(a: ByteArray): (h: Int32)
    ensures h == HashSpec(a)
  {
    match a
    case NullArray => 0
    case Array(s) =>
      HashFoldWrapsExactFold(1, s);
      ExactFoldClosedForm(1, s);
      HashFold(1, s)
  }

  /** The element loop of `Arrays.equals`, from index i on. */
  function ElementsEqualFrom(a: seq<JByte>, b: seq<JByte>, i: nat): (r: bool)
    requires |a| == |b| && i <= |a|
    ensures r <==> a[i..] == b[i..]
    decreases |a| - i
  {
    if i == |a| then true
    else if a[i] != b[i] then false
    else
      var rest := ElementsEqualFrom(a, b, i + 1);
      assert a[i..] == [a[i]] + a[i + 1..] && b[i..] == [b[i]] + b[i + 1..];
      rest
  }

  /** `Arrays.equals(byte[], byte[])`: two nulls are equal, null differs from any array,
      otherwise equal lengths and equal elements. */
  function ArraysEquals(a: ByteArray, b: ByteArray): (r: bool)
    ensures r <==> a == b
  {
    match (a, b)
    case (NullArray, NullArray) => true
    case (NullArray, Array(_)) => false
    case (Array(_), NullArray) => false
    case (Array(x), Array(y)) =>
      if |x| != |y| then false
      else
        assert x == x[0..] && y == y[0..];
        ElementsEqualFrom(x, y, 0)
  }

  /** Arrays with equal contents hash alike, and the hash is a function of the contents. */
  lemma HashConsistentWithEquals(a: ByteArray, b: ByteArray)
    ensures ArraysEquals(a, b) ==> ArraysHashCode(a) == ArraysHashCode(b)
  {
  }

  lemma SmallArrayHash()
    ensures ArraysHashCode(Array([])) == 1
    ensures ArraysHashCode(Array([1, 2, 3])) == 30817
    ensures ArraysHashCode(NullArray) == 0
  {
    var s: seq<JByte> := [1, 2, 3];
    assert s[1..] == [2, 3] && s[1..][1..] == [3];
    assert HashFold(1, s) == HashFold(32, s[1..]);
  }

  /** Seven bytes of 127 already overflow: the exact polynomial is 143982680510 and the
      `int` result is negative. */
  lemma OverflowingArrayHash()
    ensures ArraysHashCode(Array([127, 127, 127, 127, 127, 127, 127])) == -2046207554
  {
    var s: seq<JByte> := [127, 127, 127, 127, 127, 127, 127];
    assert Pow31(|s|) + WeightedSum(s) == 143982680510 by {
      assert s[1..] == [127, 127, 127, 127, 127, 127];
      assert s[1..][1..] == [127, 127, 127, 127, 127];
      assert s[1..][1..][1..] == [127, 127, 127, 127];
      assert s[1..][1..][1..][1..] == [127, 127, 127];
      assert s[1..][1..][1..][1..][1..] == [127, 127];
      assert s[1..][1..][1..][1..][1..][1..] == [127];
      assert Pow31(6) == 887503681;
    }
  }
}
