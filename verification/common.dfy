/** Small helpers shared by the cache, the pool and the service:
    an optional value and facts about sequences without repeated elements. */
module Common {

  /** A value that may be missing (a cache miss, a null connection). */
  datatype Option<T> = None | Some(value: T)

  /** No element occurs twice in `s`. The elements are compared through `At`
      so that the quantifier is used only where a proof asks for it, not at
      every index of every sequence in sight. */
  predicate NoDup<T(==)>(s: seq<T>) {
    forall i, j :: 0 <= i < j < |s| ==> At(s, i) != At(s, j)
  }

  /** The element of `s` at position `i`. */
  function At<T>(s: seq<T>, i: nat): T
    requires i < |s|
  {
    s[i]
  }

  /** The set of elements of `s`. */
  function Elems<T>(s: seq<T>): set<T> {
    set x | x in s
  }

  /** Position of the first occurrence of `x` in `s`. */
  function IndexOf<T(==)>(s: seq<T>, x: T): (i: nat)
    requires x in s
    ensures i < |s| && s[i] == x
    ensures forall j :: 0 <= j < i ==> s[j] != x
  {
    if s[0] == x then 0 else 1 + IndexOf(s[1..], x)
  }

  /** `s` with every occurrence of `x` taken out, the others in their order. */
  function Without<T(==)>(s: seq<T>, x: T): (r: seq<T>)
    ensures Elems(r) == Elems(s) - {x}
    ensures NoDup(s) ==> NoDup(r)
    ensures |r| <= |s|
    ensures x in s ==> |r| < |s|
  {
    if s == [] then []
    else if s[0] == x then
      assert NoDup(s) ==> NoDup(s[1..]) by {
        if NoDup(s) {
          HeadNotInTail(s);
        }
      }
      Without(s[1..], x)
    else
      var rest := Without(s[1..], x);
      assert Elems(s) == {s[0]} + Elems(s[1..]);
      assert Elems([s[0]] + rest) == {s[0]} + Elems(rest);
      assert NoDup(s) ==> NoDup([s[0]] + rest) by {
        if NoDup(s) {
          HeadNotInTail(s);
          ConsNoDup(s[0], rest);
        }
      }
      [s[0]] + rest
  }

  /** The first element of a sequence without repetitions does not occur again,
      and the rest has no repetitions either. */
  lemma HeadNotInTail<T>(s: seq<T>)
    requires NoDup(s) && s != []
    ensures s[0] !in s[1..] && NoDup(s[1..])
  {
    forall j | 0 <= j < |s| - 1
      ensures s[1..][j] != s[0]
    {
      assert At(s, 0) != At(s, j + 1);
    }
    forall i, j | 0 <= i < j < |s| - 1
      ensures At(s[1..], i) != At(s[1..], j)
    {
      assert At(s, i + 1) != At(s, j + 1);
    }
  }

  /** Putting a new element in front keeps a sequence free of repetitions. */
  lemma ConsNoDup<T>(a: T, s: seq<T>)
    requires a !in s && NoDup(s)
    ensures NoDup([a] + s)
  {
    forall i, j | 0 <= i < j < |s| + 1
      ensures At([a] + s, i) != At([a] + s, j)
    {
      if i > 0 {
        assert At(s, i - 1) != At(s, j - 1);
      } else {
        assert ([a] + s)[j] == s[j - 1];
      }
    }
  }

  /** The elements of `s` in reverse order. */
  function Reverse<T>(s: seq<T>): (r: seq<T>)
    ensures |r| == |s| && Elems(r) == Elems(s)
  {
    if s == [] then []
    else
      assert Elems(s) == Elems(s[1..]) + {s[0]};
      assert Elems(Reverse(s[1..]) + [s[0]]) == Elems(Reverse(s[1..])) + {s[0]};
      Reverse(s[1..]) + [s[0]]
  }

  /** Taking out an absent element changes nothing. */
  lemma {:induction false} WithoutAbsent<T>(s: seq<T>, x: T)
    requires x !in s
    ensures Without(s, x) == s
  {
    if s != [] {
      WithoutAbsent(s[1..], x);
    }
  }

  /** In a sequence without repetitions, taking out the element at position `i`
      cuts exactly that position and keeps everything else in order. */
  lemma {:induction false} WithoutAt<T>(s: seq<T>, i: nat)
    requires NoDup(s) && i < |s|
    ensures Without(s, s[i]) == s[..i] + s[i + 1..]
  {
    if i == 0 {
      HeadNotInTail(s);
      WithoutAbsent(s[1..], s[0]);
    } else {
      HeadNotInTail(s);
      WithoutAt(s[1..], i - 1);
      assert s[1..][i - 1] == s[i];
      assert s[1..][..i - 1] + s[1..][i..] == s[1..i] + s[i + 1..];
      assert s[..i] == [s[0]] + s[1..i];
    }
  }

  /** A sequence without repetitions has as many elements as its length. */
  lemma {:induction false} NoDupCard<T>(s: seq<T>)
    requires NoDup(s)
    ensures |Elems(s)| == |s|
  {
    if s != [] {
      HeadNotInTail(s);
      NoDupCard(s[1..]);
      assert Elems(s) == {s[0]} + Elems(s[1..]);
    }
  }

  /** Dropping the last element of a sequence without repetitions takes exactly
      that element out of its set of elements. */
  lemma DropLast<T>(s: seq<T>)
    requires NoDup(s) && s != []
    ensures NoDup(s[..|s| - 1])
    ensures Elems(s[..|s| - 1]) == Elems(s) - {s[|s| - 1]}
  {
    var kept := s[..|s| - 1];
    assert s == kept + [s[|s| - 1]];
    assert Elems(s) == Elems(kept) + {s[|s| - 1]};
    forall j | 0 <= j < |kept|
      ensures kept[j] != s[|s| - 1]
    {
      assert At(s, j) != At(s, |s| - 1);
    }
    forall i, j | 0 <= i < j < |kept|
      ensures At(kept, i) != At(kept, j)
    {
      assert At(s, i) != At(s, j);
    }
  }

  /** A prefix of a sequence without repetitions has none either, and the
      element right after it does not occur in it. */
  lemma PrefixNoDup<T>(s: seq<T>, n: nat)
    requires NoDup(s) && n < |s|
    ensures NoDup(s[..n]) && s[n] !in s[..n]
  {
    forall i, j | 0 <= i < j < n
      ensures At(s[..n], i) != At(s[..n], j)
    {
      assert At(s, i) != At(s, j);
    }
    forall j | 0 <= j < n
      ensures s[..n][j] != s[n]
    {
      assert At(s, j) != At(s, n);
    }
  }

  /** Appending a new element keeps a sequence free of repetitions. */
  lemma AppendNoDup<T>(s: seq<T>, a: T)
    requires a !in s && NoDup(s)
    ensures NoDup(s + [a])
  {
    forall i, j | 0 <= i < j < |s| + 1
      ensures At(s + [a], i) != At(s + [a], j)
    {
      if j < |s| {
        assert At(s, i) != At(s, j);
      } else {
        assert (s + [a])[i] == s[i];
      }
    }
  }
}
