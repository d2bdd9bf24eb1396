/** Facts about sequences that several models share: filtering, and the order-preserving
    subsequence relation. */
module Sequences {

  datatype Option<+T> = None | Some(value: T)

  /** The elements of `s` for which `p` is false, in order. */
  function Reject<T>(s: seq<T>, p: T -> bool): seq<T> {
    if s == [] then []
    else if p(s[0]) then Reject(s[1..], p)
    else [s[0]] + Reject(s[1..], p)
  }

  lemma {:induction false} RejectMembers<T>(s: seq<T>, p: T -> bool)
    ensures forall x :: x in Reject(s, p) ==> x in s && !p(x)
    ensures forall x :: x in s && !p(x) ==> x in Reject(s, p)
    ensures |Reject(s, p)| <= |s|
  {
    if s != [] {
      RejectMembers(s[1..], p);
      assert s == [s[0]] + s[1..];
    }
  }

  lemma {:induction false} RejectAppend<T>(a: seq<T>, b: seq<T>, p: T -> bool)
    ensures Reject(a + b, p) == Reject(a, p) + Reject(b, p)
  {
    if a == [] {
      assert a + b == b;
    } else {
      var x, rest := a[0], a[1..];
      RejectAppend(rest, b, p);
      assert a == [x] + rest;
      Nest([x], rest, b);
      RejectCons(x, rest + b, p);
      RejectCons(x, rest, p);
      Nest(if p(x) then [] else [x], Reject(rest, p), Reject(b, p));
    }
  }

  lemma Nest<T>(a: seq<T>, b: seq<T>, c: seq<T>)
    ensures a + (b + c) == a + b + c
  {
  }

  lemma RejectCons<T>(x: T, s: seq<T>, p: T -> bool)
    ensures Reject([x] + s, p) == (if p(x) then [] else [x]) + Reject(s, p)
  {
    assert ([x] + s)[1..] == s;
  }

  lemma {:induction false} RejectNothing<T>(s: seq<T>, p: T -> bool)
    requires forall x :: x in s ==> !p(x)
    ensures Reject(s, p) == s
  {
    if s != [] {
      RejectNothing(s[1..], p);
    }
  }

  lemma {:induction false} RejectAll<T>(s: seq<T>, p: T -> bool)
    requires forall x :: x in s ==> p(x)
    ensures Reject(s, p) == []
  {
    if s != [] {
      RejectAll(s[1..], p);
    }
  }

  lemma {:induction false} RejectCongruent<T>(s: seq<T>, p: T -> bool, q: T -> bool)
    requires forall x :: x in s ==> p(x) == q(x)
    ensures Reject(s, p) == Reject(s, q)
  {
    if s != [] {
      RejectCongruent(s[1..], p, q);
    }
  }

  /** `a` can be obtained from `b` by deleting elements, the rest keeping their order. */
  ghost predicate Subseq<T(!new)>(a: seq<T>, b: seq<T>) {
    if a == [] then true
    else if b == [] then false
    else (a[0] == b[0] && Subseq(a[1..], b[1..])) || Subseq(a, b[1..])
  }

  lemma {:induction false} SubseqOf<T(!new)>(a: seq<T>)
    ensures Subseq(a, a)
  {
    if a != [] {
      SubseqOf(a[1..]);
    }
  }

  lemma {:induction false} SubseqSkip<T(!new)>(a: seq<T>, c: seq<T>, b: seq<T>)
    requires Subseq(a, b)
    ensures Subseq(a, c + b)
  {
    if c == [] {
      assert c + b == b;
    } else {
      SubseqSkip(a, c[1..], b);
      assert (c + b)[1..] == c[1..] + b;
    }
  }

  lemma {:induction false} SubseqAppend<T(!new)>(a: seq<T>, b: seq<T>, c: seq<T>, d: seq<T>)
    requires Subseq(a, b) && Subseq(c, d)
    ensures Subseq(a + c, b + d)
  {
    if a == [] {
      SubseqSkip(c, b, d);
      assert a + c == c;
    } else if a[0] == b[0] && Subseq(a[1..], b[1..]) {
      SubseqAppend(a[1..], b[1..], c, d);
      assert (a + c)[1..] == a[1..] + c && (b + d)[1..] == b[1..] + d;
    } else {
      SubseqAppend(a, b[1..], c, d);
      assert (b + d)[1..] == b[1..] + d;
    }
  }

  lemma {:induction false} SubseqDropFirst<T(!new)>(a: seq<T>, b: seq<T>)
    requires Subseq(a, b) && a != []
    ensures b != [] && Subseq(a[1..], b[1..])
  {
    if !(a[0] == b[0] && Subseq(a[1..], b[1..])) {
      SubseqDropFirst(a, b[1..]);
      assert b[1..] == [b[1]] + b[1..][1..];
      SubseqSkip(a[1..], [b[1]], b[1..][1..]);
    }
  }

  lemma {:induction false} SubseqMembers<T(!new)>(a: seq<T>, b: seq<T>)
    requires Subseq(a, b)
    ensures |a| <= |b|
    ensures multiset(a) <= multiset(b)
    ensures forall x :: x in a ==> x in b
  {
    if a != [] {
      assert b == [b[0]] + b[1..] && a == [a[0]] + a[1..];
      if a[0] == b[0] && Subseq(a[1..], b[1..]) {
        SubseqMembers(a[1..], b[1..]);
      } else {
        SubseqMembers(a, b[1..]);
      }
    }
  }

  lemma {:induction false} SubseqReject<T(!new)>(a: seq<T>, b: seq<T>, p: T -> bool)
    requires Subseq(a, b)
    ensures Subseq(Reject(a, p), Reject(b, p))
  {
    if a != [] {
      if a[0] == b[0] && Subseq(a[1..], b[1..]) {
        SubseqReject(a[1..], b[1..], p);
        if !p(a[0]) {
          SubseqAppend([a[0]], [b[0]], Reject(a[1..], p), Reject(b[1..], p));
        }
      } else {
        SubseqReject(a, b[1..], p);
        if !p(b[0]) {
          SubseqSkip(Reject(a, p), [b[0]], Reject(b[1..], p));
        }
      }
    }
  }

  ghost predicate Distinct<T>(s: seq<T>) {
    forall i, j :: 0 <= i < j < |s| ==> s[i] != s[j]
  }

  lemma {:induction false} DistinctSize<T>(s: seq<T>)
    requires Distinct(s)
    ensures |set x | x in s| == |s|
  {
    if s != [] {
      var init, last := s[..|s| - 1], s[|s| - 1];
      DistinctSize(init);
      assert s == init + [last];
      assert (set x | x in s) == (set x | x in init) + {last};
    }
  }

  /** The list without repetitions, at the places of the first occurrences. */
  function Deduped<T(==)>(s: seq<T>): seq<T> {
    if s == [] then []
    else
      var before, last := Deduped(s[..|s| - 1]), s[|s| - 1];
      if last in before then before else before + [last]
  }

  lemma DedupedExtend<T>(s: seq<T>, v: T)
    ensures Deduped(s + [v]) == if v in Deduped(s) then Deduped(s) else Deduped(s) + [v]
  {
    assert (s + [v])[..|s|] == s;
  }

  lemma {:induction false} SubsetSize<X>(a: set<X>, b: set<X>)
    requires a <= b
    ensures |a| <= |b|
    decreases a
  {
    if a != {} {
      var x :| x in a;
      SubsetSize(a - {x}, b - {x});
    }
  }
}
