/** The two operations of System.Collections.Generic.List that the generator relies on
    beyond indexing and Add: Remove (first occurrence) and the repeated Add of the
    straight-corridor bias. */
module Lists {

  /** No element occurs twice. */
  predicate Distinct<T(==)>(s: seq<T>) {
    forall i, j :: 0 <= i < j < |s| ==> s[i] != s[j]
  }

  lemma DistinctAppend<T>(s: seq<T>, v: T)
    requires Distinct(s) && v !in s
    ensures Distinct(s + [v])
  {
  }

  /** List<T>.Remove(v): drops the first occurrence of v, and does nothing when v is absent. */
  function RemoveFirst<T(==)>(s: seq<T>, v: T): (r: seq<T>)
    ensures v !in s ==> r == s
    ensures v in s ==> |r| == |s| - 1 && multiset(r) == multiset(s) - multiset{v}
  {
    if s == [] then []
    else
      assert s == [s[0]] + s[1..];
      if s[0] == v then s[1..]
      else [s[0]] + RemoveFirst(s[1..], v)
  }

  /** Remove keeps the order of the other elements: when v first occurs at index i, it cuts
      out s[i]. */
  lemma {:induction false} RemoveFirstAt<T>(s: seq<T>, v: T, i: nat)
    requires i < |s| && s[i] == v && v !in s[..i]
    ensures RemoveFirst(s, v) == s[..i] + s[i + 1..]
  {
    assert s == [s[0]] + s[1..];
    if i > 0 {
      assert s[0] in s[..i];
      var t := s[1..];
      assert t[..i - 1] == s[1..i];
      RemoveFirstAt(t, v, i - 1);
      assert s[..i] == [s[0]] + t[..i - 1];
      assert s[i + 1..] == t[i..];
    }
  }

  /** Removing from a list without repetitions removes exactly that element. */
  lemma {:induction false} RemoveFirstDistinct<T>(s: seq<T>, v: T)
    requires Distinct(s)
    ensures Distinct(RemoveFirst(s, v))
    ensures forall u :: u in RemoveFirst(s, v) <==> u in s && u != v
  {
    if s != [] {
      assert s == [s[0]] + s[1..];
      assert s[0] !in s[1..];
      RemoveFirstDistinct(s[1..], v);
      if s[0] != v {
        var r := RemoveFirst(s, v);
        assert r == [s[0]] + RemoveFirst(s[1..], v);
        forall i, j | 0 <= i < j < |r| ensures r[i] != r[j] {
          if i > 0 { assert r[i] == RemoveFirst(s[1..], v)[i - 1]; }
          else { assert r[j] in RemoveFirst(s[1..], v); }
        }
      }
    }
  }

  /** Where a loop stands that draws elements out of pool one at a time with Remove:
      left is what remains of pool, chosen what was drawn, each element once. */
  ghost predicate Drawn<T(!new)>(pool: seq<T>, left: seq<T>, chosen: seq<T>) {
    && Distinct(left) && Distinct(chosen)
    && (forall p :: p in left <==> p in pool && p !in chosen)
    && (forall p :: p in chosen ==> p in pool)
    && |left| + |chosen| == |pool|
  }

  /** Before the first draw nothing is chosen. */
  lemma DrawnStart<T(!new)>(pool: seq<T>)
    requires Distinct(pool)
    ensures Drawn(pool, pool, [])
  {
  }

  /** Drawing v from what is left and removing it keeps the account. */
  lemma DrawnStep<T(!new)>(pool: seq<T>, left: seq<T>, chosen: seq<T>, v: T)
    requires Drawn(pool, left, chosen) && v in left
    ensures Drawn(pool, RemoveFirst(left, v), chosen + [v])
  {
    RemoveFirstDistinct(left, v);
    DistinctAppend(chosen, v);
  }

  /** k copies of c, none when k is zero or negative (a `for (i = 0; i < k; i++) Add(c)` loop). */
  function Copies<T>(c: T, k: int): (r: seq<T>)
    ensures |r| == if k < 0 then 0 else k
    ensures forall i :: 0 <= i < |r| ==> r[i] == c
  {
    if k <= 0 then [] else [c] + Copies(c, k - 1)
  }

  lemma {:induction false} CopiesCount<T>(c: T, k: int, d: T)
    ensures multiset(Copies(c, k))[d] == if d == c && k > 0 then k else 0
  {
    if k > 0 {
      CopiesCount(c, k - 1, d);
      assert multiset(Copies(c, k)) == multiset{c} + multiset(Copies(c, k - 1));
    }
  }

  /** Adds k copies of c to the end of the list, one at a time (none when k is not positive). */
  method AppendCopies<T>(s: seq<T>, c: T, k: int) returns (r: seq<T>)
    ensures r == s + Copies(c, k)
  {
    r := s;
    var i := 0;
    while i < k
      invariant 0 <= i <= (if k < 0 then 0 else k)
      invariant r == s + Copies(c, i)
    {
      assert Copies(c, i) + [c] == Copies(c, i + 1);
      r := r + [c];
      i := i + 1;
    }
  }

  /** Four lists appended to an empty list, one after the other, make their concatenation. */
  lemma ConcatChain<T>(s0: seq<T>, s1: seq<T>, s2: seq<T>, s3: seq<T>, s4: seq<T>,
                       b1: seq<T>, b2: seq<T>, b3: seq<T>, b4: seq<T>)
    requires s0 == [] && s1 == s0 + b1 && s2 == s1 + b2 && s3 == s2 + b3 && s4 == s3 + b4
    ensures s4 == b1 + b2 + b3 + b4
  {
  }

  /** Appending b and then c to a list appends b + c. */
  lemma AppendTwice<T>(a: seq<T>, b: seq<T>, c: seq<T>)
    ensures a + b + c == a + (b + c)
  {
  }

  /** How often the concatenation of four lists holds q: the four counts added up. */
  lemma CountInConcat<T>(b1: seq<T>, b2: seq<T>, b3: seq<T>, b4: seq<T>, q: T)
    ensures multiset(b1 + b2 + b3 + b4)[q] == multiset(b1)[q] + multiset(b2)[q] + multiset(b3)[q] + multiset(b4)[q]
  {
  }
}
