/** Vocabulary shared by every other module: optional columns and the byte order of TEXT keys. */
module Common {

  datatype Option<+T> = None | Some(value: T)

  datatype Result<+T, +E> = Ok(value: T) | Err(error: E)

  /** The BINARY collation of a TEXT column: the order `id DESC` and `id < ?` are read in. */
  predicate StrLess(a: string, b: string) {
    b != [] && (a == [] || a[0] < b[0] || (a[0] == b[0] && StrLess(a[1..], b[1..])))
  }

  /** Byte by byte: the first difference decides, and a proper prefix comes first. */
  lemma StrLessIs(a: string, b: string)
    ensures StrLess(a, b) <==>
      exists n | 0 <= n <= |a| && n < |b| :: a[..n] == b[..n] && (n == |a| || a[n] < b[n])
  {
    if n :| 0 <= n <= |a| && n < |b| && a[..n] == b[..n] && (n == |a| || a[n] < b[n]) {
      DecidedAt(a, b, n);
    }
    if StrLess(a, b) {
      var n := FirstDifference(a, b);
    }
  }

  lemma {:induction false} DecidedAt(a: string, b: string, n: nat)
    requires n <= |a| && n < |b| && a[..n] == b[..n] && (n == |a| || a[n] < b[n])
    ensures StrLess(a, b)
  {
    if n > 0 {
      assert a[0] == a[..n][0] == b[..n][0] == b[0];
      assert a[1..][..n - 1] == a[..n][1..] && b[1..][..n - 1] == b[..n][1..];
      DecidedAt(a[1..], b[1..], n - 1);
    }
  }

  lemma {:induction false} FirstDifference(a: string, b: string) returns (n: nat)
    requires StrLess(a, b)
    ensures n <= |a| && n < |b| && a[..n] == b[..n] && (n == |a| || a[n] < b[n])
  {
    n := 0;
    if a != [] && a[0] == b[0] {
      n := FirstDifference(a[1..], b[1..]);
      assert a[..n + 1] == [a[0]] + a[1..][..n] && b[..n + 1] == [b[0]] + b[1..][..n];
      n := n + 1;
    }
  }

  lemma {:induction false} StrLessIsTotal(a: string, b: string)
    ensures a == b || StrLess(a, b) || StrLess(b, a)
    ensures !(StrLess(a, b) && StrLess(b, a))
    ensures !StrLess(a, a)
  {
    if a != [] {
      StrLessIsTotal(a[1..], a[1..]);
      if b != [] {
        StrLessIsTotal(a[1..], b[1..]);
        assert a == [a[0]] + a[1..] && b == [b[0]] + b[1..];
      }
    }
  }

  lemma {:induction false} StrLessIsTransitive(a: string, b: string, c: string)
    requires StrLess(a, b) && StrLess(b, c)
    ensures StrLess(a, c)
  {
    if a != [] && a[0] == b[0] == c[0] {
      StrLessIsTransitive(a[1..], b[1..], c[1..]);
    }
  }

  /** Any number of elements up to the size of a set can be picked from it. */
  lemma {:induction false} SubsetOfSize<T>(s: set<T>, n: nat) returns (picked: set<T>)
    requires n <= |s|
    ensures picked <= s && |picked| == n
  {
    if n == 0 {
      picked := {};
    } else {
      var x :| x in s;
      picked := SubsetOfSize(s - {x}, n - 1);
      picked := picked + {x};
    }
  }

  lemma SubsetNotLarger<T>(a: set<T>, b: set<T>)
    requires a <= b
    ensures |a| <= |b|
    ensures |a| == |b| ==> a == b
  {
    assert b == a + (b - a);
  }
}
