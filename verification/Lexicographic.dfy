/** The order of slices.Sorted on strings, over any alphabet whose letters have a rank. */
module Lexicographic {
  predicate Less<T(==)>(rank: T -> int, a: seq<T>, b: seq<T>) {
    if b == [] then false
    else if a == [] then true
    else rank(a[0]) < rank(b[0]) || (a[0] == b[0] && Less(rank, a[1..], b[1..]))
  }

  ghost predicate Ranks<T(!new)>(rank: T -> int) {
    forall x, y :: rank(x) == rank(y) ==> x == y
  }

  /** `a` has the lower letter where the two first differ. */
  ghost predicate LowerAt<T(!new)>(rank: T -> int, a: seq<T>, b: seq<T>, i: nat) {
    i < |a| && i < |b| && a[..i] == b[..i] && rank(a[i]) < rank(b[i])
  }

  lemma PrefixHead<T>(a: seq<T>, b: seq<T>, i: nat)
    requires i <= |a| && i <= |b| && a[..i] == b[..i]
    ensures i > 0 ==> a[0] == b[0]
  {
    if i > 0 {
      assert a[..i][0] == a[0] && b[..i][0] == b[0];
    }
  }

  lemma LowerInTail<T(!new)>(rank: T -> int, a: seq<T>, b: seq<T>, i: nat)
    requires a != [] && b != [] && a[0] == b[0]
    ensures LowerAt(rank, a[1..], b[1..], i) <==> LowerAt(rank, a, b, i + 1)
    ensures !LowerAt(rank, a, b, 0)
  {
    if i < |a| - 1 && i < |b| - 1 {
      assert a[..i + 1] == [a[0]] + a[1..][..i] && b[..i + 1] == [b[0]] + b[1..][..i];
      assert a[1..][..i] == a[..i + 1][1..] && b[1..][..i] == b[..i + 1][1..];
    }
  }

  /** `a` is a proper prefix of `b`, or has the lower letter where they first differ. */
  lemma {:induction false} LessIff<T(!new)>(rank: T -> int, a: seq<T>, b: seq<T>)
    ensures Less(rank, a, b) <==> a < b || exists i :: LowerAt(rank, a, b, i)
  {
    if a != [] && b != [] {
      if a[0] == b[0] {
        LessIff(rank, a[1..], b[1..]);
        assert a < b <==> a[1..] < b[1..] by {
          assert a == [a[0]] + a[1..] && b == [b[0]] + b[1..];
        }
        forall i: nat ensures LowerAt(rank, a[1..], b[1..], i) <==> LowerAt(rank, a, b, i + 1) {
          LowerInTail(rank, a, b, i);
        }
        LowerInTail(rank, a, b, 0);
        hide LowerAt;
        if i: nat :| LowerAt(rank, a, b, i) {
          assert LowerAt(rank, a[1..], b[1..], i - 1);
        }
      } else {
        forall i: nat | LowerAt(rank, a, b, i) ensures i == 0 {
          PrefixHead(a, b, i);
        }
        assert LowerAt(rank, a, b, 0) <==> rank(a[0]) < rank(b[0]);
      }
    }
  }

  lemma {:induction false} LessIsTotal<T(!new)>(rank: T -> int, a: seq<T>, b: seq<T>)
    requires Ranks(rank)
    ensures Less(rank, a, b) || a == b || Less(rank, b, a)
  {
    if a != [] && b != [] && a[0] == b[0] {
      LessIsTotal(rank, a[1..], b[1..]);
      assert a == [a[0]] + a[1..] && b == [b[0]] + b[1..];
    }
  }

  lemma {:induction false} LessIsTransitive<T>(rank: T -> int, a: seq<T>, b: seq<T>, c: seq<T>)
    requires Less(rank, a, b) && Less(rank, b, c)
    ensures Less(rank, a, c)
  {
    if a != [] && a[0] == b[0] == c[0] {
      LessIsTransitive(rank, a[1..], b[1..], c[1..]);
    }
  }

  lemma {:induction false} LessIsStrict<T>(rank: T -> int, a: seq<T>, b: seq<T>)
    ensures !(Less(rank, a, b) && Less(rank, b, a))
  {
    if a != [] && b != [] {
      LessIsStrict(rank, a[1..], b[1..]);
    }
  }
}
