/** Sequence helpers used to describe the insertion order of Python dicts. */
module Sequences {

  /** The set of elements of a sequence. */
  function Elems<T>(s: seq<T>): set<T>
  {
    set x | x in s
  }

  /** No element occurs twice. */
  ghost predicate Distinct<T>(s: seq<T>)
  {
    forall i, j :: 0 <= i < j < |s| ==> s[i] != s[j]
  }

  /** The key order of a dict whose keys were `keys` after every element of
      `s` has been read with insert-on-miss semantics: the elements of `s` that
      are not present yet are appended, in the order in which `s` holds them. */
  function Extend<T(==)>(keys: seq<T>, s: seq<T>): seq<T>
    decreases |s|
  {
    if s == [] then keys
    else
      var e := Extend(keys, s[..|s| - 1]);
      if s[|s| - 1] in e then e else e + [s[|s| - 1]]
  }

  /** `s` with every occurrence of `x` removed and the order kept: the key
      order of a dict after `del d[x]`. */
  function Without<T(==)>(s: seq<T>, x: T): seq<T>
    decreases |s|
  {
    if s == [] then []
    else Without(s[..|s| - 1], x) + (if s[|s| - 1] == x then [] else [s[|s| - 1]])
  }

  lemma Assoc<T>(a: seq<T>, b: seq<T>, c: seq<T>)
    ensures (a + b) + c == a + (b + c)
  {
  }

  lemma ElemsAppend<T>(a: seq<T>, b: seq<T>)
    ensures Elems(a + b) == Elems(a) + Elems(b)
  {
    forall x | x in Elems(a + b) ensures x in Elems(a) + Elems(b) {
      var i :| 0 <= i < |a + b| && (a + b)[i] == x;
      if i < |a| { assert a[i] == x; } else { assert b[i - |a|] == x; }
    }
    forall x | x in Elems(a) + Elems(b) ensures x in Elems(a + b) {
      if x in a { var i :| 0 <= i < |a| && a[i] == x; assert (a + b)[i] == x; }
      else { var i :| 0 <= i < |b| && b[i] == x; assert (a + b)[|a| + i] == x; }
    }
  }

  lemma {:induction false} ExtendElems<T>(keys: seq<T>, s: seq<T>)
    ensures Elems(Extend(keys, s)) == Elems(keys) + Elems(s)
    ensures keys <= Extend(keys, s)
    decreases |s|
  {
    if s != [] {
      var p := s[..|s| - 1];
      ExtendElems(keys, p);
      assert s == p + [s[|s| - 1]];
      ElemsAppend(p, [s[|s| - 1]]);
      ElemsAppend(Extend(keys, p), [s[|s| - 1]]);
    }
  }

  lemma {:induction false} ExtendDistinct<T>(keys: seq<T>, s: seq<T>)
    requires Distinct(keys)
    ensures Distinct(Extend(keys, s))
    decreases |s|
  {
    if s != [] {
      ExtendDistinct(keys, s[..|s| - 1]);
    }
  }

  lemma ExtendLast<T>(keys: seq<T>, s: seq<T>, x: T)
    ensures Extend(keys, s + [x]) == if x in Extend(keys, s) then Extend(keys, s) else Extend(keys, s) + [x]
  {
    assert (s + [x])[..|s + [x]| - 1] == s;
  }

  /** Reading keys that are all present already changes nothing. */
  lemma {:induction false} ExtendNoop<T>(keys: seq<T>, s: seq<T>)
    requires Elems(s) <= Elems(keys)
    ensures Extend(keys, s) == keys
    decreases |s|
  {
    if s != [] {
      var p := s[..|s| - 1];
      assert Elems(p) <= Elems(s) by {
        forall x | x in p ensures x in s { var i :| 0 <= i < |p| && p[i] == x; assert s[i] == x; }
      }
      ExtendNoop(keys, p);
      assert s[|s| - 1] in Elems(s);
    }
  }

  lemma {:induction false} WithoutElems<T>(s: seq<T>, x: T)
    ensures Elems(Without(s, x)) == Elems(s) - {x}
    ensures Distinct(s) ==> Distinct(Without(s, x))
    decreases |s|
  {
    if s != [] {
      var p := s[..|s| - 1];
      var last := s[|s| - 1];
      var tail := if last == x then [] else [last];
      WithoutElems(p, x);
      assert s == p + [last];
      ElemsAppend(p, [last]);
      ElemsAppend(Without(p, x), tail);
      if Distinct(s) {
        assert Distinct(p) by {
          forall i, j | 0 <= i < j < |p| ensures p[i] != p[j] { assert s[i] == p[i] && s[j] == p[j]; }
        }
        assert last !in Elems(p) by {
          forall i | 0 <= i < |p| ensures p[i] != last { assert s[i] == p[i]; }
        }
        var w := Without(p, x);
        forall i, j | 0 <= i < j < |w + tail| ensures (w + tail)[i] != (w + tail)[j] {
          if j >= |w| { assert (w + tail)[i] in Elems(w); }
        }
      }
    }
  }
}
