/** Shared vocabulary: optional values, results, and the byte-level number types of the wire format. */
module Common {

  datatype Option<+T> = None | Some(value: T)

  datatype Result<+T, +E> = Ok(value: T) | Err(error: E) {
    predicate IsFailure() {
      Err?
    }

    function PropagateFailure<U>(): Result<U, E>
      requires Err?
    {
      Err(error)
    }

    function Extract(): T
      requires Ok?
    {
      value
    }
  }

  type Byte = b: int | 0 <= b < 0x100
  type Bytes = seq<Byte>
  type U16 = n: int | 0 <= n < 0x1_0000
  /** Lexicographic order: the first difference decides, and a proper prefix comes first. */
  ghost predicate LexLess(a: seq<int>, b: seq<int>) {
    exists k: nat :: FirstDifference(a, b, k) && (k < |a| ==> a[k] < b[k])
  }

  ghost predicate FirstDifference(a: seq<int>, b: seq<int>, k: nat) {
    && k <= |a|
    && k < |b|
    && a[..k] == b[..k]
    && (k < |a| ==> a[k] != b[k])
  }

  lemma LexIntro(a: seq<int>, b: seq<int>, k: nat)
    requires k <= |a| && k < |b| && a[..k] == b[..k] && (k < |a| ==> a[k] < b[k])
    ensures LexLess(a, b)
  {
    assert FirstDifference(a, b, k);
  }

  lemma LexAsymmetric(a: seq<int>, b: seq<int>)
    requires LexLess(a, b)
    ensures !LexLess(b, a) && a != b
  {
    var k: nat :| FirstDifference(a, b, k) && (k < |a| ==> a[k] < b[k]);
    forall j: nat | FirstDifference(b, a, j) ensures j == k {
      assert forall i | 0 <= i < k :: a[i] == a[..k][i] == b[i];
      assert forall i | 0 <= i < j :: a[i] == a[..j][i] == b[i];
    }
  }

  lemma {:induction false} LexTotal(a: seq<int>, b: seq<int>, n: nat)
    requires n <= |a| && n <= |b| && a[..n] == b[..n]
    ensures a == b || LexLess(a, b) || LexLess(b, a)
    decreases |a| - n
  {
    if n == |a| || n == |b| {
      assert a[..|a|] == a && b[..|b|] == b;
      assert n < |b| ==> FirstDifference(a, b, n);
      assert n < |a| ==> FirstDifference(b, a, n);
    } else if a[n] != b[n] {
      assert FirstDifference(a, b, n) && FirstDifference(b, a, n);
    } else {
      assert a[..n + 1] == a[..n] + [a[n]] && b[..n + 1] == b[..n] + [b[n]];
      LexTotal(a, b, n + 1);
    }
  }

  type U64 = n: int | 0 <= n < 0x1_0000_0000_0000_0000
}
