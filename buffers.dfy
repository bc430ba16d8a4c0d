/**
 * The test harness's byte comparison of file contents
 * (tester/testing/libs/utils.js, `areBuffersEqual`).
 */
module TestUtils {
  import opened Interfaces

  /** A JavaScript value handed to the comparison: a `Buffer` of bytes, or anything else. */
  datatype JsValue = BufferValue(bytes: seq<byte>) | OtherValue

  /** Both values are buffers holding the same bytes. */
  predicate SameBuffers(a: JsValue, b: JsValue) {
    a.BufferValue? && b.BufferValue? && a.bytes == b.bytes
  }

  /** On buffers the comparison is an equivalence: reflexive, symmetric and transitive. */
  lemma SameBuffersIsEquivalence(a: JsValue, b: JsValue, c: JsValue)
    ensures a.BufferValue? ==> SameBuffers(a, a)
    ensures SameBuffers(a, b) <==> SameBuffers(b, a)
    ensures SameBuffers(a, b) && SameBuffers(b, c) ==> SameBuffers(a, c)
  {
  }

  /**
   * `areBuffersEqual`: false unless both values are buffers, false when the
   * lengths differ, and otherwise true exactly when every byte agrees, the
   * bytes compared in order and the first difference ending the comparison.
   */
  method AreBuffersEqual(bufA: JsValue, bufB: JsValue) returns (eq: bool)
    ensures eq <==> SameBuffers(bufA, bufB)
  {
    if !bufA.BufferValue? || !bufB.BufferValue? {
      return false;
    }
    var len := |bufA.bytes|;
    if len != |bufB.bytes| {
      return false;
    }
    for i := 0 to len
      invariant bufA.bytes[..i] == bufB.bytes[..i]
    {
      if bufA.bytes[i] != bufB.bytes[i] {
        return false;
      }
      assert bufA.bytes[..i + 1] == bufA.bytes[..i] + [bufA.bytes[i]];
      assert bufB.bytes[..i + 1] == bufB.bytes[..i] + [bufB.bytes[i]];
    }
    assert bufA.bytes == bufA.bytes[..len];
    assert bufB.bytes == bufB.bytes[..len];
    return true;
  }
}
