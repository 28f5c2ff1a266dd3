/**
 A filter cache key and the decorator that attaches one to a Lucene filter.

 `Key` is an immutable identity for a cacheable filter computation, backed by a
 byte array, with its hash computed once at construction. `Wrapper` pairs a
 delegate filter with a `Key`: `CacheKey` hands the key out, and every filter
 operation is forwarded to the delegate without looking at the key.

 Java objects are modelled as `Obj` values carrying their heap address, so that
 the reference comparison `this == o` and `o.getClass()` can be stated. The
 delegate filter type `F` and the Lucene reader `R`, result `D` and exception
 `E` types are left abstract; the delegate's own methods are given as a
 `FilterMethods` record of functions.
 */
module CacheKeyFilter {
  import opened JavaLang
  import opened JavaArrays

  type Addr = nat

  /** The exception a `Key` operation can throw. */
  datatype RuntimeException = NullPointerException

  /** `CacheKeyFilter.Key`: the byte array and the hash stored beside it. */
  datatype Key = Key(bytes: ByteArray, hash: Int32) {

    /** The stored hash is the one `Arrays.hashCode` gives for the stored bytes. */
    predicate Valid() {
      hash == HashSpec(bytes)
    }

    /** `bytes()`: the array whose hash was stored beside it. */
    function Bytes(): (b: ByteArray)
      ensures Valid() ==> ArraysHashCode(b) == hash
    {
      bytes
    }

    /** `hashCode()`: the stored value, not a recomputation; for a constructed key it is
        the `Arrays.hashCode` of the bytes. */
    function HashCode(): (h: Int32)
      ensures Valid() ==> h == ArraysHashCode(bytes)
    {
      hash
    }

    /** `utf8ToString()`, with the external decoder as a parameter. */
    function Utf8ToString(decode: ByteArray -> string): string {
      decode(bytes)
    }
  }

  /** A key as the Java constructors leave it: its stored hash is that of its bytes. */
  type ValidKey = k: Key | k.Valid() witness Key(NullArray, 0)

  /** `new Key(byte[])`: keeps the array and hashes it once. */
  function NewKey(bytes: ByteArray): (k: ValidKey)
    ensures k.Bytes() == bytes
    ensures k.HashCode() == HashSpec(bytes)
  {
    Key(bytes, ArraysHashCode(bytes))
  }

  /** `new Key(String)`: the byte constructor applied to the external encoder's output. */
  function NewKeyFromString(encode: string -> ByteArray, str: string): (k: ValidKey)
    ensures k.Bytes() == encode(str)
    ensures k.HashCode() == HashSpec(encode(str))
  {
    NewKey(encode(str))
  }

  /** A Java object reference, with the heap address that `==` compares. */
  datatype Obj<F> =
    | Null
    | KeyObj(addr: Addr, key: ValidKey)            // an instance of exactly class Key
    | WrapperObj(addr: Addr, wrapper: Wrapper<F>)
    | FilterObj(addr: Addr, filter: F)          // any other filter
    | OtherObj(addr: Addr, className: string)   // anything else, subclasses of Key included

  /** Two references to the same address are the same object. */
  ghost predicate SameAddressSameObject<F>(x: Obj<F>, y: Obj<F>) {
    !x.Null? && !y.Null? && x.addr == y.addr ==> x == y
  }

  /** `Key.equals(Object)` with receiver `self`: the reference check, then `o.getClass()`
      (which throws on null), then `Arrays.equals` on the two byte arrays. */
  function KeyEquals<F>(self: Obj<F>, o: Obj<F>): (r: Result<bool, RuntimeException>)
    requires self.KeyObj?
    ensures r.Failure? <==> o.Null?
    ensures r.Failure? ==> r.error == NullPointerException
    ensures r == Success(true) <==>
              (!o.Null? && o.addr == self.addr) || (o.KeyObj? && o.key.bytes == self.key.bytes)
  {
    if !o.Null? && o.addr == self.addr then Success(true)
    else if o.Null? then Failure(NullPointerException)
    else if !o.KeyObj? then Success(false)
    else Success(ArraysEquals(self.key.bytes, o.key.bytes))
  }

  /** On a consistent heap, a key equals exactly the objects of class `Key` with the same
      bytes, and never throws for a non-null argument. */
  lemma KeyEqualsIffSameBytes<F>(self: Obj<F>, o: Obj<F>)
    requires self.KeyObj? && !o.Null?
    requires SameAddressSameObject(self, o)
    ensures KeyEquals(self, o) == Success(o.KeyObj? && o.key.bytes == self.key.bytes)
  {
  }

  /** `equals(null)` throws rather than answering false. */
  lemma KeyEqualsNullThrows<F>(self: Obj<F>)
    requires self.KeyObj?
    ensures KeyEquals(self, Null) == Failure(NullPointerException)
  {
  }

  /** `Key.equals` is an equivalence relation on `Key` objects of a consistent heap. */
  lemma KeyEqualsIsEquivalence<F>(x: Obj<F>, y: Obj<F>, z: Obj<F>)
    requires x.KeyObj? && y.KeyObj? && z.KeyObj?
    requires SameAddressSameObject(x, y) && SameAddressSameObject(y, z) && SameAddressSameObject(x, z)
    ensures KeyEquals(x, x) == Success(true)
    ensures KeyEquals(x, y) == KeyEquals(y, x)
    ensures KeyEquals(x, y) == Success(true) && KeyEquals(y, z) == Success(true) ==>
              KeyEquals(x, z) == Success(true)
  {
  }

  /** Equal keys have equal hash codes, as the `Object` contract requires. */
  lemma KeyHashConsistentWithEquals<F>(x: Obj<F>, y: Obj<F>)
    requires x.KeyObj? && y.KeyObj?
    requires SameAddressSameObject(x, y)
    requires KeyEquals(x, y) == Success(true)
    ensures x.key.HashCode() == y.key.HashCode()
  {
  }

  /** A key is determined by its bytes: two constructions agree exactly when their
      byte arrays do, hash included. */
  lemma NewKeyInjective(b1: ByteArray, b2: ByteArray)
    ensures NewKey(b1) == NewKey(b2) <==> b1 == b2
  {
  }

  /** Keys built from strings whose encodings differ are not equal, whatever their
      hashes; keys built from one string are. */
  lemma StringKeysEqualIffEncodingsEqual<F>(encode: string -> ByteArray, s1: string, s2: string, a1: Addr, a2: Addr)
    requires a1 != a2
    ensures KeyEquals<F>(KeyObj(a1, NewKeyFromString(encode, s1)), KeyObj(a2, NewKeyFromString(encode, s2)))
            == Result<bool, RuntimeException>.Success(encode(s1) == encode(s2))
  {
  }

  /** `utf8ToString` of a key built from a string is the external decoder applied to the
      external encoder's output: the key itself neither adds nor loses anything. */
  lemma Utf8ToStringDecodesEncoding(encode: string -> ByteArray, decode: ByteArray -> string, str: string)
    ensures NewKeyFromString(encode, str).Utf8ToString(decode) == decode(encode(str))
  {
  }

  /** Two separately built keys over [1, 2, 3] are equal and share the hash 30817. */
  lemma KeyOfOneTwoThree<F>()
    ensures var k1 := NewKey(Array([1, 2, 3]));
            var k2 := NewKey(Array([1, 2, 3]));
            KeyEquals<F>(KeyObj(1, k1), KeyObj(2, k2)) == Success(true)
            && k1.HashCode() == 30817 && k2.HashCode() == 30817
  {
    SmallArrayHash();
  }

  /** The methods of the delegate filter that the wrapper forwards to. */
  datatype FilterMethods<!F, -R, D, E> = FilterMethods(
    getDocIdSet: (F, R) -> Result<D, E>,
    hashCode: F -> Int32,
    equals: (F, Obj<F>) -> bool,
    toString: F -> string)

  /** `CacheKeyFilter.Wrapper`: a delegate filter and the key attached to it. */
  datatype Wrapper<F> = Wrapper(filter: F, key: ValidKey) {

    /** `cacheKey()`. */
    function CacheKey(): (k: Key)
      ensures k.Valid()
    {
      key
    }

    /** `getDocIdSet(reader)`: the delegate's result, or the delegate's exception. */
    function GetDocIdSet<R, D, E>(m: FilterMethods<F, R, D, E>, reader: R): Result<D, E> {
      m.getDocIdSet(filter, reader)
    }

    /** `hashCode()`. */
    function HashCode<R, D, E>(m: FilterMethods<F, R, D, E>): Int32 {
      m.hashCode(filter)
    }

    /** `equals(obj)`: the delegate is asked about obj itself, wrapper or not. */
    function Equals<R, D, E>(m: FilterMethods<F, R, D, E>, obj: Obj<F>): bool {
      m.equals(filter, obj)
    }

    /** `toString()`. */
    function ToString<R, D, E>(m: FilterMethods<F, R, D, E>): string {
      m.toString(filter)
    }
  }

  /** `new Wrapper(filter, key)`. */
  function NewWrapper<F>(filter: F, key: ValidKey): (w: Wrapper<F>)
    ensures w.CacheKey() == key
  {
    Wrapper(filter, key)
  }

  /** The attached key comes back unchanged, whatever the delegate. */
  lemma CacheKeyPreserved<F>(filter: F, key: ValidKey)
    ensures NewWrapper(filter, key).CacheKey() == key
    ensures NewWrapper(filter, key).CacheKey().HashCode() == ArraysHashCode(key.Bytes())
  {
  }

  /** Every filter operation of a wrapper gives exactly what the bare delegate gives,
      results and exceptions alike, and so does not depend on the key. */
  lemma WrapperIsTransparent<F, R, D, E>(m: FilterMethods<F, R, D, E>, filter: F, key: ValidKey, reader: R, obj: Obj<F>)
    ensures NewWrapper(filter, key).GetDocIdSet(m, reader) == m.getDocIdSet(filter, reader)
    ensures NewWrapper(filter, key).HashCode(m) == m.hashCode(filter)
    ensures NewWrapper(filter, key).Equals(m, obj) == m.equals(filter, obj)
    ensures NewWrapper(filter, key).ToString(m) == m.toString(filter)
  {
  }

  /** Two wrappers of one delegate answer every filter operation alike, whatever keys
      they carry. */
  lemma WrapperIgnoresKey<F, R, D, E>(m: FilterMethods<F, R, D, E>, filter: F, k1: ValidKey, k2: ValidKey, reader: R, obj: Obj<F>)
    ensures NewWrapper(filter, k1).GetDocIdSet(m, reader) == NewWrapper(filter, k2).GetDocIdSet(m, reader)
    ensures NewWrapper(filter, k1).HashCode(m) == NewWrapper(filter, k2).HashCode(m)
    ensures NewWrapper(filter, k1).Equals(m, obj) == NewWrapper(filter, k2).Equals(m, obj)
    ensures NewWrapper(filter, k1).ToString(m) == NewWrapper(filter, k2).ToString(m)
  {
  }

  /** A delegate exception reaches the caller of `getDocIdSet` unchanged. */
  lemma DelegateFailurePropagates<F, R, D, E>(m: FilterMethods<F, R, D, E>, w: Wrapper<F>, reader: R, e: E)
    requires m.getDocIdSet(w.filter, reader) == Failure(e)
    ensures w.GetDocIdSet(m, reader) == Failure(e)
  {
  }

  /** A delegate whose `equals` accepts only filters of its own kind, as Lucene filters
      do, makes a wrapper unequal to every wrapper, itself included. */
  lemma WrapperNotEqualToWrappers<F, R, D, E>(m: FilterMethods<F, R, D, E>, w: Wrapper<F>, other: Wrapper<F>, a: Addr)
    requires forall b: Addr, v: Wrapper<F> :: !m.equals(w.filter, WrapperObj(b, v))
    ensures !w.Equals(m, WrapperObj(a, other))
    ensures !w.Equals(m, WrapperObj(a, w))
  {
  }

  /** A concrete instance: for a delegate whose `equals` rejects everything but bare
      filters and compares their values, two wrappers of that one delegate are unequal,
      while a wrapper equals the bare delegate. */
  lemma WrappersOfOneDelegateNeedNotBeEqual()
    ensures var m: FilterMethods<int, int, int, int> := FilterMethods(
                       (f, r) => Success(f), f => Wrap32(f), (f, o: Obj<int>) => o.FilterObj? && o.filter == f, f => "");
            var w1 := NewWrapper(7, NewKey(Array([1])));
            var w2 := NewWrapper(7, NewKey(Array([2])));
            !w1.Equals(m, WrapperObj(2, w2)) && !w1.Equals(m, WrapperObj(1, w1)) && w1.Equals(m, FilterObj(3, 7))
  {
  }
}
