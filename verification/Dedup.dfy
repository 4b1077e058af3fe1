/** Keeping the first occurrence of each element, as the `contains`/`push` loops of the harness do. */
module Dedup {
  import opened Identity

  function KeepFirst<T(==,!new)>(s: seq<T>): (r: seq<T>)
    ensures Distinct(r)
    ensures forall x :: x in s <==> x in r
    ensures |r| <= |s|
  {
    if s == [] then []
    else
      var last := s[|s| - 1];
      var prefix := KeepFirst(s[..|s| - 1]);
      assert s == s[..|s| - 1] + [last];
      if last in prefix then prefix else prefix + [last]
  }

  /** Where `x` first occurs. */
  function FirstAt<T(==)>(s: seq<T>, x: T): (i: nat)
    requires x in s
    ensures i < |s| && s[i] == x && x !in s[..i]
  {
    if s[0] == x then 0 else 1 + FirstAt(s[1..], x)
  }

  /** The kept elements are the first occurrences, in order. */
  lemma {:induction false} KeepFirstInOrder<T(!new)>(s: seq<T>)
    ensures forall k, l :: 0 <= k < l < |KeepFirst(s)| ==> FirstAt(s, KeepFirst(s)[k]) < FirstAt(s, KeepFirst(s)[l])
  {
    if s != [] {
      var prefix, r := s[..|s| - 1], KeepFirst(s);
      KeepFirstInOrder(prefix);
      assert s == prefix + [s[|s| - 1]];
      forall x | x in prefix ensures FirstAt(s, x) == FirstAt(prefix, x) {
        FirstAtIsUnique(s, x, FirstAt(prefix, x));
      }
      forall k, l | 0 <= k < l < |r| ensures FirstAt(s, r[k]) < FirstAt(s, r[l]) {
        assert r[k] == KeepFirst(prefix)[k] && r[k] in prefix;
        if l == |KeepFirst(prefix)| {
          assert s[..|s| - 1] == prefix && r[l] !in prefix;
          FirstAtIsUnique(s, r[l], |s| - 1);
        } else {
          assert r[l] == KeepFirst(prefix)[l] && r[l] in prefix;
        }
      }
    }
  }

  lemma FirstAtIsUnique<T(!new)>(s: seq<T>, x: T, i: nat)
    requires i < |s| && s[i] == x && x !in s[..i]
    ensures FirstAt(s, x) == i
  {}

  lemma KeepFirstStep<T(!new)>(s: seq<T>, x: T)
    ensures KeepFirst(s + [x]) == if x in KeepFirst(s) then KeepFirst(s) else KeepFirst(s) + [x]
  {}

  /** A list without repetitions is kept whole. */
  lemma {:induction false} KeepFirstOfDistinct<T(!new)>(s: seq<T>)
    requires Distinct(s)
    ensures KeepFirst(s) == s
  {
    if s != [] {
      var prefix := s[..|s| - 1];
      KeepFirstOfDistinct(prefix);
      assert s == prefix + [s[|s| - 1]];
      assert s[|s| - 1] !in prefix;
    }
  }
}
