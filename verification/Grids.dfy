/** Square 5 x 5 layouts in row-major order, and the small sequence vocabulary they need. */
module Grids {
  import opened Cards

  /** `rows` is a BoardSize x BoardSize layout. */
  predicate Shaped<T>(rows: seq<seq<T>>) {
    |rows| == BoardSize && forall i :: 0 <= i < |rows| ==> |rows[i]| == BoardSize
  }

  /** Row-major concatenation of the rows. */
  function Flatten<T>(rows: seq<seq<T>>): seq<T> {
    if |rows| == 0 then [] else Flatten(rows[..|rows| - 1]) + rows[|rows| - 1]
  }

  /** Cut a sequence into consecutive rows of BoardSize elements, the way
      `[s[i:i + 5] for i in range(0, 25, 5)]` does. */
  function Chunk<T>(s: seq<T>): (rows: seq<seq<T>>)
    requires |s| % BoardSize == 0
    ensures BoardSize * |rows| == |s|
    ensures forall i :: 0 <= i < |rows| ==> |rows[i]| == BoardSize
    ensures forall i, j :: 0 <= i < |rows| && 0 <= j < BoardSize ==> rows[i][j] == s[BoardSize * i + j]
    ensures Flatten(rows) == s
  {
    if |s| == 0 then []
    else
      var front := Chunk(s[..|s| - BoardSize]);
      assert (front + [s[|s| - BoardSize..]])[..|front|] == front;
      assert s[..|s| - BoardSize] + s[|s| - BoardSize..] == s;
      front + [s[|s| - BoardSize..]]
  }

  /** `n` copies of `x`, as Python's `[x] * n`. */
  function Repeat<T>(x: T, n: nat): (s: seq<T>)
    ensures |s| == n
    ensures forall k :: 0 <= k < n ==> s[k] == x
  {
    seq(n, _ => x)
  }

  lemma {:induction false} RepeatMultiset<T>(x: T, n: nat, y: T)
    ensures multiset(Repeat(x, n))[y] == if x == y then n else 0
  {
    if n > 0 {
      RepeatMultiset(x, n - 1, y);
      assert Repeat(x, n) == Repeat(x, n - 1) + [x];
      assert multiset(Repeat(x, n)) == multiset(Repeat(x, n - 1)) + multiset{x};
    }
  }

  /** No element occurs twice. */
  predicate Distinct<T(==)>(s: seq<T>) {
    forall i, j :: 0 <= i < j < |s| ==> s[i] != s[j]
  }

  function Elements<T>(s: seq<T>): set<T> {
    set x | x in s
  }

  /** Python's duplicate test `len(s) != len(set(s))` holds exactly when some element repeats. */
  lemma {:induction false} SetSizeDetectsDuplicates<T>(s: seq<T>)
    ensures |Elements(s)| <= |s|
    ensures |Elements(s)| == |s| <==> Distinct(s)
  {
    if |s| > 0 {
      var t := s[1..];
      SetSizeDetectsDuplicates(t);
      assert Elements(s) == {s[0]} + Elements(t);
      if s[0] in t {
        assert Elements(s) == Elements(t);
        var k :| 0 <= k < |t| && t[k] == s[0];
        assert s[0] == s[k + 1];
      } else {
        assert |Elements(s)| == |Elements(t)| + 1;
        if Distinct(t) {
          forall i, j | 0 <= i < j < |s| ensures s[i] != s[j] {
            if i > 0 {
              assert s[i] == t[i - 1] && s[j] == t[j - 1];
            } else {
              assert s[j] == t[j - 1];
            }
          }
        } else {
          var i, j :| 0 <= i < j < |t| && t[i] == t[j];
          assert s[i + 1] == s[j + 1];
        }
      }
    }
  }
}
