/** `sort` followed by `dedup` on lines: the one strictly increasing list with the same elements. */
module Sorting {
  /** The order of Rust strings: code point by code point. */
  predicate Less(a: string, b: string) {
    if b == "" then false
    else if a == "" then true
    else if a[0] != b[0] then a[0] < b[0]
    else Less(a[1..], b[1..])
  }

  /** The texts are the same up to `k`, and there the first has the smaller character. */
  predicate SmallerAt(a: string, b: string, k: nat) {
    k < |a| && k < |b| && a[..k] == b[..k] && a[k] < b[k]
  }

  lemma SmallerNext(a: string, b: string, k: nat)
    requires a != "" && b != "" && a[0] == b[0]
    ensures SmallerAt(a, b, k + 1) <==> SmallerAt(a[1..], b[1..], k)
  {
    if k + 1 < |a| && k + 1 < |b| {
      assert a[..k + 1] == [a[0]] + a[1..][..k] && b[..k + 1] == [b[0]] + b[1..][..k];
      assert a[1..][..k] == a[..k + 1][1..] && b[1..][..k] == b[..k + 1][1..];
    }
  }

  lemma SmallerHead(a: string, b: string, k: nat)
    requires a != "" && b != ""
    ensures SmallerAt(a, b, 0) <==> a[0] < b[0]
    ensures a[0] != b[0] && SmallerAt(a, b, k) ==> k == 0
  {
    if k > 0 && k < |a| && k < |b| {
      assert a[..k][0] == a[0] && b[..k][0] == b[0];
    }
  }

  /** One text comes before another exactly when it is a beginning of it, or has the smaller character where they first
      differ. */
  lemma {:induction false} LessIff(a: string, b: string)
    ensures Less(a, b) <==> a < b || exists k: nat :: SmallerAt(a, b, k)
  {
    if a != "" && b != "" {
      hide SmallerAt;
      forall k: nat
        ensures SmallerAt(a, b, 0) <==> a[0] < b[0]
        ensures a[0] != b[0] && SmallerAt(a, b, k) ==> k == 0
      {
        SmallerHead(a, b, k);
      }
      if a[0] == b[0] {
        LessIff(a[1..], b[1..]);
        assert a == [a[0]] + a[1..] && b == [b[0]] + b[1..];
        assert a < b <==> a[1..] < b[1..];
        if k: nat :| SmallerAt(a, b, k) {
          assert k > 0;
          SmallerNext(a, b, k - 1);
        }
        if k: nat :| SmallerAt(a[1..], b[1..], k) {
          SmallerNext(a, b, k);
        }
      } else {
        SmallerHead(a, b, 0);
        assert !(a < b);
      }
    }
  }

  lemma {:induction false} LessTotal(a: string, b: string)
    ensures a == b || Less(a, b) || Less(b, a)
  {
    if a != "" && b != "" && a[0] == b[0] {
      LessTotal(a[1..], b[1..]);
      assert a == [a[0]] + a[1..] && b == [b[0]] + b[1..];
    }
  }

  lemma {:induction false} LessTransitive(a: string, b: string, c: string)
    requires Less(a, b) && Less(b, c)
    ensures Less(a, c)
  {
    if a != "" && a[0] == b[0] == c[0] {
      LessTransitive(a[1..], b[1..], c[1..]);
    }
  }

  lemma LessIrreflexive(a: string)
    ensures !Less(a, a)
  {
  }

  predicate Increasing(s: seq<string>) {
    forall i :: 0 < i < |s| ==> Less(s[i - 1], s[i])
  }

  function Insert(x: string, s: seq<string>): seq<string> {
    if s == [] then [x]
    else if x == s[0] then s
    else if Less(x, s[0]) then [x] + s
    else [s[0]] + Insert(x, s[1..])
  }

  function SortDedup(s: seq<string>): seq<string> {
    if s == [] then [] else Insert(s[0], SortDedup(s[1..]))
  }

  lemma {:induction false} InsertSorted(x: string, s: seq<string>)
    requires Increasing(s)
    ensures Increasing(Insert(x, s))
    ensures Insert(x, s) != [] && (s == [] || Less(x, s[0]) ==> Insert(x, s)[0] == x)
    ensures s != [] && !Less(x, s[0]) ==> Insert(x, s)[0] == s[0]
    ensures forall y :: y in Insert(x, s) <==> y == x || y in s
  {
    if s != [] {
      LessTotal(x, s[0]);
      LessIrreflexive(x);
      if x != s[0] && !Less(x, s[0]) {
        assert Increasing(s[1..]) by {
          assert forall i :: 0 < i < |s[1..]| ==> s[1..][i - 1] == s[i] && s[1..][i] == s[i + 1];
        }
        InsertSorted(x, s[1..]);
        var t := Insert(x, s[1..]);
        assert Less(s[0], t[0]);
        assert s == [s[0]] + s[1..];
      }
    }
  }

  lemma {:induction false} SortDedupSorted(s: seq<string>)
    ensures Increasing(SortDedup(s))
    ensures forall y :: y in SortDedup(s) <==> y in s
  {
    if s != [] {
      SortDedupSorted(s[1..]);
      InsertSorted(s[0], SortDedup(s[1..]));
      assert forall y :: y in s <==> y == s[0] || y in s[1..];
    }
  }

  lemma {:induction false} FirstIsLeast(s: seq<string>, j: nat)
    requires Increasing(s) && 0 < j < |s|
    ensures Less(s[0], s[j])
  {
    if j > 1 {
      FirstIsLeast(s, j - 1);
      LessTransitive(s[0], s[j - 1], s[j]);
    }
  }

  /** A strictly increasing list is determined by its elements. */
  lemma {:induction false} IncreasingUnique(s: seq<string>, t: seq<string>)
    requires Increasing(s) && Increasing(t)
    requires forall y :: y in s <==> y in t
    ensures s == t
  {
    assert t != [] ==> t[0] in t;
    if s != [] {
      assert s[0] in t;
      assert t[0] in s;
      var i :| 0 <= i < |t| && t[i] == s[0];
      var j :| 0 <= j < |s| && s[j] == t[0];
      HeadsEqual(s, t, i, j);
      TailHasNoHead(s);
      TailHasNoHead(t);
      assert forall y :: y in s[1..] <==> y in s && y != s[0];
      assert forall y :: y in t[1..] <==> y in t && y != t[0];
      IncreasingUnique(s[1..], t[1..]);
      assert s == [s[0]] + s[1..] && t == [t[0]] + t[1..];
    }
  }

  lemma HeadsEqual(s: seq<string>, t: seq<string>, i: nat, j: nat)
    requires Increasing(s) && Increasing(t) && i < |t| && j < |s|
    requires t[i] == s[0] && s[j] == t[0]
    ensures s[0] == t[0]
  {
    if i > 0 && j > 0 {
      FirstIsLeast(t, i);
      FirstIsLeast(s, j);
      LessTransitive(s[0], t[0], s[0]);
      LessIrreflexive(s[0]);
    }
  }

  lemma TailHasNoHead(s: seq<string>)
    requires Increasing(s) && s != []
    ensures s[0] !in s[1..] && Increasing(s[1..])
    ensures forall y :: y in s <==> y == s[0] || y in s[1..]
  {
    assert forall i :: 0 < i < |s[1..]| ==> s[1..][i - 1] == s[i] && s[1..][i] == s[i + 1];
    forall j | 0 < j < |s|
      ensures s[j] != s[0]
    {
      FirstIsLeast(s, j);
      LessIrreflexive(s[0]);
    }
  }

  /** Order and repetition of the input do not matter. */
  lemma SortDedupCanonical(s: seq<string>, t: seq<string>)
    requires forall y :: y in s <==> y in t
    ensures SortDedup(s) == SortDedup(t)
  {
    SortDedupSorted(s);
    SortDedupSorted(t);
    IncreasingUnique(SortDedup(s), SortDedup(t));
  }
}
