/** Small value types shared by the whole model: optional values, the errors
    the source throws, and helpers on sequences used as insertion-ordered sets
    (the JavaScript `Set` iterates in insertion order). */
module Common {

  datatype Option<T> = None | Some(value: T)

  /** The faults the modelled code raises. */
  datatype Error =
    | NotEnoughLocations            // "Not enough locations, must be at least 2"
    | NotImplemented                // makeAction: "Not Implemented: <kind>"
    | MethodNotImplemented          // A*'s processGenerator: "Method not implemented."
    | TypeError                     // a member read on `undefined` (a missing key or method)

  datatype Result<T> = Ok(value: T) | Err(error: Error)

  /** No element occurs twice. */
  predicate NoDup<T(==)>(s: seq<T>) {
    forall i, j :: 0 <= i < j < |s| ==> s[i] != s[j]
  }

  /** `Set.prototype.add` on an insertion-ordered set. */
  function Add<T(==)>(s: seq<T>, x: T): (r: seq<T>)
    ensures NoDup(s) ==> NoDup(r)
    ensures Elems(r) == Elems(s) + {x}
    ensures x in s ==> r == s
    ensures x !in s ==> r == s + [x]
  {
    if x in s then s else s + [x]
  }

  /** `Set.prototype.delete` on an insertion-ordered set. */
  function Remove<T(==)>(s: seq<T>, x: T): (r: seq<T>)
    ensures NoDup(s) ==> NoDup(r)
    ensures Elems(r) == Elems(s) - {x}
    ensures |r| <= |s|
    ensures Subsequence(r, s)
  {
    if s == [] then []
    else
      var rest := Remove(s[1..], x);
      assert s == [s[0]] + s[1..];
      assert Elems(s) == {s[0]} + Elems(s[1..]);
      if s[0] == x then
        SubsequenceSkip(rest, s);
        rest
      else
        var r := [s[0]] + rest;
        assert r[1..] == rest;
        assert Elems(r) == {s[0]} + Elems(rest);
        assert NoDup(s) ==> s[0] !in Elems(s[1..]);
        r
  }

  /** `a` is `b` with some elements left out, in the same order. */
  predicate Subsequence<T(==)>(a: seq<T>, b: seq<T>)
    decreases |b|
  {
    if a == [] then true
    else if b == [] then false
    else if a[0] == b[0] then Subsequence(a[1..], b[1..])
    else Subsequence(a, b[1..])
  }

  lemma {:induction false} SubsequenceSkip<T>(a: seq<T>, b: seq<T>)
    requires |b| > 0 && Subsequence(a, b[1..])
    ensures Subsequence(a, b)
    decreases |b|, 0
  {
    if a != [] && a[0] == b[0] {
      SubsequenceTail(a, b[1..]);
    }
  }

  lemma {:induction false} SubsequenceTail<T>(a: seq<T>, b: seq<T>)
    requires |a| > 0 && Subsequence(a, b)
    ensures Subsequence(a[1..], b)
    decreases |b|, 1
  {
    if a[0] == b[0] {
      if a[1..] != [] {
        SubsequenceTail(a[1..], b[1..]);
        SubsequenceSkip(a[1..], b);
      }
    } else {
      SubsequenceTail(a, b[1..]);
      if a[1..] != [] {
        SubsequenceSkip(a[1..], b);
      }
    }
  }

  function Reverse<T>(s: seq<T>): (r: seq<T>)
    ensures |r| == |s|
    ensures forall k :: 0 <= k < |s| ==> r[k] == s[|s| - 1 - k]
  {
    if s == [] then [] else Reverse(s[1..]) + [s[0]]
  }

  function Elems<T>(s: seq<T>): set<T> {
    set x | x in s
  }

  /** The distinct elements of `s` in order of first occurrence: the key
      order of a JavaScript `Map` or `Set` filled from `s`. */
  function Dedup<T(==)>(s: seq<T>): (r: seq<T>)
    ensures NoDup(r) && Elems(r) == Elems(s)
  {
    if s == [] then []
    else
      var init := s[..|s| - 1];
      assert s == init + [s[|s| - 1]];
      assert Elems(s) == Elems(init) + {s[|s| - 1]};
      Add(Dedup(init), s[|s| - 1])
  }

  /** Removing what is absent changes nothing. */
  lemma {:induction false} RemoveAbsent<T>(s: seq<T>, x: T)
    requires x !in s
    ensures Remove(s, x) == s
  {
    if s != [] {
      RemoveAbsent(s[1..], x);
    }
  }

  /** One more element of a prefix: how `Dedup` and `Elems` grow. */
  lemma PrefixStep<T>(s: seq<T>, i: nat)
    requires i < |s|
    ensures s[..i + 1][..i] == s[..i]
    ensures Dedup(s[..i + 1]) == Add(Dedup(s[..i]), s[i])
    ensures Elems(s[..i + 1]) == Elems(s[..i]) + {s[i]}
  {
    assert s[..i + 1] == s[..i] + [s[i]];
  }

  /** A prefix one longer is the prefix and the next element. */
  lemma TakeStep<T>(s: seq<T>, i: nat)
    requires i < |s|
    ensures s[..i + 1] == s[..i] + [s[i]]
  {
  }

  lemma PopLast<T>(s: seq<T>)
    requires |s| > 0
    ensures s == s[..|s| - 1] + [s[|s| - 1]]
  {
  }

  lemma Shrinks<T>(keys: set<T>, v: set<T>, x: T)
    requires x in keys && x !in v
    ensures |keys - (v + {x})| < |keys - v|
  {
    var rest := keys - (v + {x});
    assert keys - v == rest + {x} && x !in rest;
  }

  /** Adding a member changes nothing. */
  lemma AddMember<T>(s: set<T>, x: T)
    requires x in s
    ensures s + {x} == s
  {
  }

  lemma CardinalityGrows<T>(s: set<T>, x: T)
    ensures |s| <= |s + {x}|
  {
    if x !in s {
      assert |s + {x}| == |s| + 1;
    } else {
      assert s + {x} == s;
    }
  }

  lemma PrefixOfAppend<T>(a: seq<T>, b: seq<T>, n: nat)
    requires n <= |a|
    ensures (a + b)[..n] == a[..n]
  {
  }
}
