/** Byte strings, the form in which flag and user keys reach the engine, and their ordering. */
module Bytes {

  type Byte = bv8

  type ByteString = seq<Byte>

  const DOT: ByteString := [0x2e]

  /** The order of `<` on strings: byte by byte, a proper prefix first. */
  predicate Less(a: ByteString, b: ByteString) {
    if b == [] then false
    else if a == [] then true
    else a[0] < b[0] || (a[0] == b[0] && Less(a[1..], b[1..]))
  }

  /** Behind a common front, a is over or its next byte is smaller. */
  predicate LessAt(a: ByteString, b: ByteString, n: nat) {
    && n < |b| && n <= |a| && a[..n] == b[..n]
    && (n == |a| || a[n] < b[n])
  }

  lemma {:induction false} LessExactly(a: ByteString, b: ByteString)
    ensures Less(a, b) <==> exists n: nat :: LessAt(a, b, n)
  {
    if a == [] {
      assert b != [] ==> LessAt(a, b, 0);
    } else if b != [] {
      LessExactly(a[1..], b[1..]);
      forall n: nat
        ensures LessAt(a, b, n) <==> if n == 0 then a[0] < b[0] else a[0] == b[0] && LessAt(a[1..], b[1..], n - 1)
      {
        if n > 0 {
          LessAtNext(a, b, n);
        } else {
          assert a[..0] == b[..0];
        }
      }
      hide LessAt;
      assert a[0] < b[0] <==> LessAt(a, b, 0);
      if n: nat :| LessAt(a[1..], b[1..], n) && a[0] == b[0] {
        assert LessAt(a, b, n + 1);
      }
      if n: nat :| LessAt(a, b, n) && n > 0 {
        assert LessAt(a[1..], b[1..], n - 1);
      }
    }
  }

  lemma LessAtNext(a: ByteString, b: ByteString, n: nat)
    requires a != [] && b != [] && n > 0
    ensures LessAt(a, b, n) <==> a[0] == b[0] && LessAt(a[1..], b[1..], n - 1)
  {
    if n <= |a| && n < |b| {
      var x, y := a[1..][..n - 1], b[1..][..n - 1];
      assert a[..n] == [a[0]] + x && b[..n] == [b[0]] + y;
      assert ([a[0]] + x)[1..] == x && ([b[0]] + y)[1..] == y;
      assert ([a[0]] + x)[0] == a[0] && ([b[0]] + y)[0] == b[0];
    }
  }

  lemma {:induction false} LessIsTotal(a: ByteString, b: ByteString)
    ensures a == b || Less(a, b) || Less(b, a)
  {
    if a != [] && b != [] {
      assert a == [a[0]] + a[1..] && b == [b[0]] + b[1..];
      LessIsTotal(a[1..], b[1..]);
    }
  }

  lemma {:induction false} LessIsAsymmetric(a: ByteString, b: ByteString)
    requires Less(a, b)
    ensures a != b && !Less(b, a)
  {
    if a != [] && a[0] == b[0] {
      LessIsAsymmetric(a[1..], b[1..]);
    }
  }

  lemma {:induction false} LessIsTransitive(a: ByteString, b: ByteString, c: ByteString)
    requires Less(a, b) && Less(b, c)
    ensures Less(a, c)
  {
    if a != [] && a[0] == b[0] && b[0] == c[0] {
      LessIsTransitive(a[1..], b[1..], c[1..]);
    }
  }
}
