/** Small shared vocabulary: optional values, UTF-16 text and its order. */
module Base {

  datatype Option<+T> = None | Some(value: T)

  /** A UTF-16 code unit, the unit JavaScript strings are made of and compared by. */
  type Unit = x: int | 0 <= x < 0x1_0000

  type Text = seq<Unit>

  /** The order of JavaScript's `<` on strings: lexicographic by code unit. */
  predicate Less(a: Text, b: Text) {
    b != [] && (a == [] || a[0] < b[0] || (a[0] == b[0] && Less(a[1..], b[1..])))
  }

  /** One text comes before another at the first place where they differ, or where it ends first. */
  lemma {:induction false} LessIff(a: Text, b: Text)
    ensures Less(a, b) <==> exists k :: 0 <= k <= |a| && k < |b| && a[..k] == b[..k] && (k == |a| || a[k] < b[k])
  {
    if a != [] && b != [] && a[0] == b[0] {
      LessIff(a[1..], b[1..]);
      if Less(a, b) {
        var x, y := a[1..], b[1..];
        var k :| 0 <= k <= |x| && k < |y| && x[..k] == y[..k] && (k == |x| || x[k] < y[k]);
        assert a[..k + 1] == [a[0]] + a[1..][..k] && b[..k + 1] == [b[0]] + b[1..][..k];
      }
      if k :| 0 <= k <= |a| && k < |b| && a[..k] == b[..k] && (k == |a| || a[k] < b[k]) {
        assert forall i :: 0 <= i < k ==> a[..k][i] == b[..k][i];
        assert a[1..][..k - 1] == b[1..][..k - 1];
      }
    } else if a != [] && b != [] {
      if a[0] < b[0] { assert a[..0] == b[..0]; }
      forall k | 0 < k <= |a| && k < |b| ensures a[..k] != b[..k] { assert a[..k][0] != b[..k][0]; }
    } else if b != [] {
      assert a[..0] == b[..0];
    }
  }

  lemma {:induction false} LessIsTotal(a: Text, b: Text)
    ensures a == b || Less(a, b) || Less(b, a)
  {
    if a != [] && b != [] && a[0] == b[0] {
      LessIsTotal(a[1..], b[1..]);
      assert a == [a[0]] + a[1..] && b == [b[0]] + b[1..];
    }
  }

  lemma {:induction false} LessIsAsymmetric(a: Text, b: Text)
    requires Less(a, b)
    ensures !Less(b, a) && a != b
  {
    if a != [] && a[0] == b[0] {
      LessIsAsymmetric(a[1..], b[1..]);
    }
  }

  lemma {:induction false} LessIsTransitive(a: Text, b: Text, c: Text)
    requires Less(a, b) && Less(b, c)
    ensures Less(a, c)
  {
    if a != [] && a[0] == b[0] == c[0] {
      LessIsTransitive(a[1..], b[1..], c[1..]);
    }
  }

  lemma {:induction false} SubsetIsSmaller<T>(a: set<T>, b: set<T>)
    requires a <= b
    ensures |a| <= |b|
    decreases a
  {
    if a != {} {
      var x :| x in a;
      SubsetIsSmaller(a - {x}, b - {x});
    }
  }
}
