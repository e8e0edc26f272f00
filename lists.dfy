/** The small part of Python's `list` that the bot relies on: membership,
    `list.index`, `list.remove`, and the "no duplicates" property the
    registry keeps for its alias lists. */
module Lists {

  /** No element occurs twice in `s`. */
  ghost predicate NoDup<T>(s: seq<T>) {
    forall i, j :: 0 <= i < j < |s| ==> s[i] != s[j]
  }

  /** Python's `s.index(x)`: the first position at which `x` occurs. */
  function IndexOf<T(==)>(s: seq<T>, x: T): (i: nat)
    requires x in s
    ensures i < |s| && s[i] == x
    ensures forall j :: 0 <= j < i ==> s[j] != x
  {
    if s[0] == x then 0 else 1 + IndexOf(s[1..], x)
  }

  /** Python's `s.remove(x)`: drops the first occurrence of `x` and keeps
      the order of everything else. Nothing is added, nothing but `x` is
      lost, and the list is one shorter when it held `x`. */
  function RemoveFirst<T(==)>(s: seq<T>, x: T): (r: seq<T>)
    ensures forall y :: y in r ==> y in s
    ensures forall y :: y in s && y != x ==> y in r
    ensures |r| == if x in s then |s| - 1 else |s|
  {
    if s == [] then []
    else if s[0] == x then s[1..]
    else [s[0]] + RemoveFirst(s[1..], x)
  }

  /** `remove` splices out exactly the first occurrence: the elements
      before it and after it keep their order, and a list without `x` comes
      back unchanged. */
  lemma {:induction false} RemoveFirstSplices<T>(s: seq<T>, x: T)
    ensures x !in s ==> RemoveFirst(s, x) == s
    ensures x in s ==> RemoveFirst(s, x) == s[..IndexOf(s, x)] + s[IndexOf(s, x) + 1..]
  {
    if s != [] && s[0] != x {
      RemoveFirstSplices(s[1..], x);
      if x in s[1..] {
        var i := IndexOf(s[1..], x);
        assert IndexOf(s, x) == i + 1;
        assert s[..i + 1] == [s[0]] + s[1..][..i];
        assert s[i + 2..] == s[1..][i + 1..];
      } else {
        assert [s[0]] + s[1..] == s;
      }
    }
  }

  /** A list without duplicates loses every `x` to `remove` and stays
      without duplicates. */
  lemma {:induction false} RemoveFirstNoDup<T>(s: seq<T>, x: T)
    requires NoDup(s)
    ensures NoDup(RemoveFirst(s, x)) && x !in RemoveFirst(s, x)
  {
    if s != [] {
      assert NoDup(s[1..]) by {
        forall i, j | 0 <= i < j < |s[1..]| ensures s[1..][i] != s[1..][j] {
          assert s[1..][i] == s[i + 1] && s[1..][j] == s[j + 1];
        }
      }
      if s[0] == x {
        assert x !in s[1..] by {
          forall k | 0 <= k < |s[1..]| ensures s[1..][k] != x {
            assert s[1..][k] == s[k + 1];
          }
        }
      } else {
        RemoveFirstNoDup(s[1..], x);
        var rest := RemoveFirst(s[1..], x);
        assert s[0] !in rest by {
          forall k | 0 <= k < |s[1..]| ensures s[1..][k] != s[0] {
            assert s[1..][k] == s[k + 1];
          }
        }
        var r := [s[0]] + rest;
        forall i, j | 0 <= i < j < |r| ensures r[i] != r[j] {
          if i == 0 { assert r[j] == rest[j - 1]; }
          else { assert r[i] == rest[i - 1] && r[j] == rest[j - 1]; }
        }
      }
    }
  }

  /** Overwriting one position of a duplicate-free list with a value it does
      not hold keeps it duplicate-free, and the only new member is that value. */
  lemma ReplaceKeeps<T>(s: seq<T>, i: nat, x: T)
    requires i < |s|
    ensures forall y :: y in s[i := x] ==> y == x || y in s
    ensures NoDup(s) && x !in s ==> NoDup(s[i := x])
  {
    forall y | y in s[i := x] ensures y == x || y in s {
      var k :| 0 <= k < |s| && s[i := x][k] == y;
      if k != i { assert s[k] == y; }
    }
  }
}
