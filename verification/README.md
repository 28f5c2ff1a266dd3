# CacheKeyFilter in Dafny

A model of Elasticsearch's `CacheKeyFilter`: the filter cache key `Key` and the
decorator `Wrapper` that attaches a key to a Lucene filter.

- `Key` is an immutable identity for a cacheable filter computation. It is backed
  by a byte array. Its hash is computed once, at construction, with
  `java.util.Arrays.hashCode(byte[])`. Its `equals` is structural: the argument must
  be of exactly class `Key` and hold a byte-wise equal array.
- `Wrapper` holds a delegate filter and a `Key`. `cacheKey()` returns the key.
  `getDocIdSet`, `hashCode`, `equals` and `toString` forward to the delegate and
  never look at the key.

Files:

- `JavaLang.dfy`: Java `byte` and `int`, the 32-bit wrap-around `Wrap32` with its
  congruence lemmas, and `Result` for "returns a value or throws".
- `JavaArrays.dfy`: `Arrays.hashCode(byte[])` and `Arrays.equals(byte[], byte[])` over
  a nullable byte array. The hash is the JDK loop `h = 31*h + b` with overflow at
  every step (`HashFold`). It is proved equal to the same loop over unbounded
  integers (`ExactFold`) reduced once to 32 bits, and that to the closed form
  `31^n + s[0]*31^(n-1) + ... + s[n-1]` (`HashSpec`).
- `CacheKeyFilter.dfy`: `Key`, its two constructors and `equals`; Java references as
  `Obj` values with heap addresses; `Wrapper` over an abstract filter type `F`. The
  delegate's own methods are a `FilterMethods` record of functions.

Modelling choices:

- A `byte[]` is `ByteArray`: `NullArray` or an immutable sequence of signed bytes.
  The constructor hands the array straight to `Arrays.hashCode`, which returns 0 for
  null. `Arrays.equals` treats two nulls as equal and null as unequal to any array.
- `this == o` compares heap addresses. The lemmas about `equals` assume a
  consistent heap (`SameAddressSameObject`): two references with one address are
  one object.
- Keys stored in objects and wrappers have the type `ValidKey`: their stored hash is
  the `Arrays.hashCode` of their bytes, as both Java constructors guarantee.
- The text codec behind `new Key(String)` and `utf8ToString()` is foreign code. It
  enters as the function parameters `encode` and `decode`.
- Lucene's `Filter`, `IndexReader`, `DocIdSet` and `IOException` are the type
  parameters `F`, `R`, `D` and `E`.

Behaviour of the code worth knowing:

- Wrapper equality is whatever the delegate answers for the argument (lines 93-95).
  For a delegate that checks its own class, a wrapper is not even equal to itself
  (`WrapperNotEqualToWrappers`, `WrappersOfOneDelegateNeedNotBeEqual`).
- The wrapper constructor does no null check (lines 76-79).
- `Key.equals(null)` throws `NullPointerException` (lines 57-58, `KeyEqualsNullThrows`).
- The key keeps the caller's array without a copy (line 40). The model treats the
  array as immutable.

## Model

| member | source | states |
|---|---|---|
| JavaLang.Wrap32 | modules/elasticsearch/src/main/java/org/elasticsearch/index/cache/filter/support/CacheKeyFilter.java:37 | the `int` result has the same low 32 bits as the exact value, and in-range values are unchanged |
| JavaLang.Wrap32Congruent | modules/elasticsearch/src/main/java/org/elasticsearch/index/cache/filter/support/CacheKeyFilter.java:36-41 | two exact values give the same `int` exactly when they agree modulo 2^32 |
| JavaArrays.HashFoldWrapsExactFold | modules/elasticsearch/src/main/java/org/elasticsearch/index/cache/filter/support/CacheKeyFilter.java:36-41 | the overflowing loop `h = 31*h + b` gives the same `int` as the exact loop over unbounded integers reduced once to 32 bits |
| JavaArrays.ExactFoldCongruent | modules/elasticsearch/src/main/java/org/elasticsearch/index/cache/filter/support/CacheKeyFilter.java:36-41 | exact loops started from values equal modulo 2^32 end equal modulo 2^32 |
| JavaArrays.ExactFoldClosedForm | modules/elasticsearch/src/main/java/org/elasticsearch/index/cache/filter/support/CacheKeyFilter.java:36-41 | the exact loop from acc computes acc*31^n + s[0]*31^(n-1) + ... + s[n-1] |
| JavaArrays.ArraysHashCode | modules/elasticsearch/src/main/java/org/elasticsearch/index/cache/filter/support/CacheKeyFilter.java:41 | `Arrays.hashCode` is 0 for null and otherwise the closed form 31^n + sum of s[i]*31^(n-1-i), as a signed `int` |
| JavaArrays.ElementsEqualFrom | modules/elasticsearch/src/main/java/org/elasticsearch/index/cache/filter/support/CacheKeyFilter.java:62 | the element loop of `Arrays.equals` answers true exactly when the two suffixes are equal |
| JavaArrays.ArraysEquals | modules/elasticsearch/src/main/java/org/elasticsearch/index/cache/filter/support/CacheKeyFilter.java:62 | `Arrays.equals` is true exactly when both arrays are null or both hold the same elements |
| JavaArrays.HashConsistentWithEquals | modules/elasticsearch/src/main/java/org/elasticsearch/index/cache/filter/support/CacheKeyFilter.java:41-62 | arrays that `Arrays.equals` accepts have the same `Arrays.hashCode` |
| JavaArrays.SmallArrayHash | modules/elasticsearch/src/main/java/org/elasticsearch/index/cache/filter/support/CacheKeyFilter.java:41 | the hash of [] is 1, of [1, 2, 3] is 30817, of a null array is 0 |
| JavaArrays.OverflowingArrayHash | modules/elasticsearch/src/main/java/org/elasticsearch/index/cache/filter/support/CacheKeyFilter.java:41 | seven bytes of 127 overflow the `int` and hash to -2046207554 |
| CacheKeyFilter.NewKey | modules/elasticsearch/src/main/java/org/elasticsearch/index/cache/filter/support/CacheKeyFilter.java:39-42 | the byte constructor keeps the given array and stores the array's `Arrays.hashCode` |
| CacheKeyFilter.NewKeyInjective | modules/elasticsearch/src/main/java/org/elasticsearch/index/cache/filter/support/CacheKeyFilter.java:39-42 | two keys built from byte arrays are equal values exactly when the arrays are |
| CacheKeyFilter.NewKeyFromString | modules/elasticsearch/src/main/java/org/elasticsearch/index/cache/filter/support/CacheKeyFilter.java:44-46 | the string constructor holds the encoded string's bytes and their hash |
| CacheKeyFilter.Key.Bytes | modules/elasticsearch/src/main/java/org/elasticsearch/index/cache/filter/support/CacheKeyFilter.java:48-50 | `bytes()` returns the array whose `Arrays.hashCode` is the stored hash |
| CacheKeyFilter.Key.HashCode | modules/elasticsearch/src/main/java/org/elasticsearch/index/cache/filter/support/CacheKeyFilter.java:65-67 | `hashCode()` returns the stored value, which for a constructed key is the `Arrays.hashCode` of its bytes |
| CacheKeyFilter.Key.Utf8ToString | modules/elasticsearch/src/main/java/org/elasticsearch/index/cache/filter/support/CacheKeyFilter.java:52-54 | `utf8ToString()` hands the stored bytes to the external decoder (stated by `Utf8ToStringDecodesEncoding`) |
| CacheKeyFilter.Utf8ToStringDecodesEncoding | modules/elasticsearch/src/main/java/org/elasticsearch/index/cache/filter/support/CacheKeyFilter.java:44-54 | `utf8ToString` of a key built from a string is the decoder applied to the encoder's output, with nothing added or lost by the key |
| CacheKeyFilter.KeyEquals | modules/elasticsearch/src/main/java/org/elasticsearch/index/cache/filter/support/CacheKeyFilter.java:56-63 | `equals` throws exactly for null, and is true exactly for the same reference or a `Key` with equal bytes |
| CacheKeyFilter.KeyEqualsIffSameBytes | modules/elasticsearch/src/main/java/org/elasticsearch/index/cache/filter/support/CacheKeyFilter.java:56-63 | on a consistent heap, for a non-null argument, `equals` returns whether it is a `Key` with the same bytes |
| CacheKeyFilter.KeyEqualsNullThrows | modules/elasticsearch/src/main/java/org/elasticsearch/index/cache/filter/support/CacheKeyFilter.java:57-58 | `equals(null)` throws `NullPointerException` |
| CacheKeyFilter.KeyEqualsIsEquivalence | modules/elasticsearch/src/main/java/org/elasticsearch/index/cache/filter/support/CacheKeyFilter.java:56-63 | on `Key` objects `equals` is reflexive, symmetric and transitive |
| CacheKeyFilter.KeyHashConsistentWithEquals | modules/elasticsearch/src/main/java/org/elasticsearch/index/cache/filter/support/CacheKeyFilter.java:56-67 | any two keys that `equals` accepts return the same `hashCode()` |
| CacheKeyFilter.StringKeysEqualIffEncodingsEqual | modules/elasticsearch/src/main/java/org/elasticsearch/index/cache/filter/support/CacheKeyFilter.java:44-63 | keys from two strings are equal exactly when the encodings are, whatever the hashes |
| CacheKeyFilter.KeyOfOneTwoThree | modules/elasticsearch/src/main/java/org/elasticsearch/index/cache/filter/support/CacheKeyFilter.java:39-67 | two separate keys over [1, 2, 3] are equal and both hash to 30817 |
| CacheKeyFilter.NewWrapper | modules/elasticsearch/src/main/java/org/elasticsearch/index/cache/filter/support/CacheKeyFilter.java:76-79 | the wrapper constructor keeps the given key |
| CacheKeyFilter.Wrapper.CacheKey | modules/elasticsearch/src/main/java/org/elasticsearch/index/cache/filter/support/CacheKeyFilter.java:81-83 | `cacheKey()` returns a key whose stored hash matches its bytes, the one given to the constructor (`CacheKeyPreserved`) |
| CacheKeyFilter.Wrapper.GetDocIdSet | modules/elasticsearch/src/main/java/org/elasticsearch/index/cache/filter/support/CacheKeyFilter.java:85-87 | `getDocIdSet` forwards the reader to the delegate and returns its result or exception (`WrapperIsTransparent`, `DelegateFailurePropagates`) |
| CacheKeyFilter.Wrapper.HashCode | modules/elasticsearch/src/main/java/org/elasticsearch/index/cache/filter/support/CacheKeyFilter.java:89-91 | `hashCode()` is the delegate's hash code, independent of the key (`WrapperIsTransparent`, `WrapperIgnoresKey`) |
| CacheKeyFilter.Wrapper.Equals | modules/elasticsearch/src/main/java/org/elasticsearch/index/cache/filter/support/CacheKeyFilter.java:93-95 | `equals(obj)` is the delegate's answer for obj itself, independent of the key (`WrapperIsTransparent`, `WrapperIgnoresKey`) |
| CacheKeyFilter.Wrapper.ToString | modules/elasticsearch/src/main/java/org/elasticsearch/index/cache/filter/support/CacheKeyFilter.java:97-99 | `toString()` is the delegate's string, with no key information (`WrapperIsTransparent`, `WrapperIgnoresKey`) |
| CacheKeyFilter.CacheKeyPreserved | modules/elasticsearch/src/main/java/org/elasticsearch/index/cache/filter/support/CacheKeyFilter.java:76-83 | `cacheKey()` returns the very key passed to the constructor, whose hash code is the `Arrays.hashCode` of its bytes |
| CacheKeyFilter.WrapperIsTransparent | modules/elasticsearch/src/main/java/org/elasticsearch/index/cache/filter/support/CacheKeyFilter.java:85-99 | `getDocIdSet`, `hashCode`, `equals` and `toString` give exactly the bare delegate's answers |
| CacheKeyFilter.WrapperIgnoresKey | modules/elasticsearch/src/main/java/org/elasticsearch/index/cache/filter/support/CacheKeyFilter.java:85-99 | two wrappers of one delegate give the same answers to all four operations whatever their keys |
| CacheKeyFilter.DelegateFailurePropagates | modules/elasticsearch/src/main/java/org/elasticsearch/index/cache/filter/support/CacheKeyFilter.java:85-87 | an exception from the delegate's `getDocIdSet` reaches the caller unchanged |
| CacheKeyFilter.WrapperNotEqualToWrappers | modules/elasticsearch/src/main/java/org/elasticsearch/index/cache/filter/support/CacheKeyFilter.java:93-95 | if the delegate rejects every wrapper, a wrapper is equal to no wrapper, itself included |
| CacheKeyFilter.WrappersOfOneDelegateNeedNotBeEqual | modules/elasticsearch/src/main/java/org/elasticsearch/index/cache/filter/support/CacheKeyFilter.java:93-95 | for a class-checking delegate, two wrappers of it are unequal while the wrapper equals the bare delegate |

## Left out

- AllocationModule.java: dependency-injection wiring with no state or algorithm.
- The text codec inside `Unicode.fromStringAsBytes` and `Unicode.fromBytes`: foreign code, passed in as functions; no UTF-8 round trip or invalid-byte policy is claimed.
- CacheKeyFilter.KeyEqualsIffSameBytes: assumes a consistent heap, because a value model cannot rule out two different objects at one address.
- Mutation of the caller's `byte[]` after construction: arrays are immutable values here. In the source a later write would leave the stored hash stale.
- The reference-identity shortcut inside `Arrays.equals`: with arrays as values it gives the same answer as the element comparison.
- A null delegate, null key or null string passed to a constructor: filters, keys and strings are non-null here.
- A subclass of `Key` as the receiver of `equals`: the receiver is always of exactly class `Key`; a subclass instance as the argument is modelled (it is unequal).
- Lucene `Filter`, `IndexReader` and `DocIdSet` semantics and the I/O behind `getDocIdSet`: external library types, kept abstract.
- Cache storage, eviction and concurrency: not part of this code.
