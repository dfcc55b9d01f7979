/** Generic sequence transformations: filtering, dropping runs at either end,
    collapsing runs, and Python's prefix slice. */
module Seqs {

  /** `a` can be obtained from `b` by deleting elements, so the elements of `a`
      occur in `b` in the same order. */
  ghost predicate IsSubsequence<T>(a: seq<T>, b: seq<T>)
    decreases |b|
  {
    if |a| == 0 then true
    else if |b| == 0 then false
    else (a[0] == b[0] && IsSubsequence(a[1..], b[1..])) || IsSubsequence(a, b[1..])
  }

  /** No two neighbouring elements both satisfy `p`. */
  ghost predicate NoAdjacent<T>(p: T -> bool, s: seq<T>) {
    forall i :: 0 <= i < |s| - 1 ==> !(p(s[i]) && p(s[i + 1]))
  }

  /** The elements of `s` that satisfy `keep`, in their original order
      (a Python list comprehension with an `if` clause). */
  function Filter<T(!new)>(keep: T -> bool, s: seq<T>): (r: seq<T>)
    ensures |r| <= |s|
    ensures forall i :: 0 <= i < |r| ==> keep(r[i])
    ensures IsSubsequence(r, s)
  {
    if |s| == 0 then []
    else
      var rest := Filter(keep, s[1..]);
      if keep(s[0]) then [s[0]] + rest else rest
  }

  /** How many elements of `s` satisfy `p`. */
  function Count<T>(p: T -> bool, s: seq<T>): nat {
    if |s| == 0 then 0 else (if p(s[0]) then 1 else 0) + Count(p, s[1..])
  }

  /** A filter keeps exactly as many elements as satisfy its predicate; with
      `IsSubsequence` this pins the result down. */
  lemma {:induction false} FilterLength<T(!new)>(keep: T -> bool, s: seq<T>)
    ensures |Filter(keep, s)| == Count(keep, s)
  {
    if |s| > 0 {
      FilterLength(keep, s[1..]);
    }
  }

  /** Filtering keeps every copy of a kept element and no copy of the others. */
  lemma {:induction false} FilterCounts<T(!new)>(keep: T -> bool, s: seq<T>)
    ensures forall x :: multiset(Filter(keep, s))[x] == if keep(x) then multiset(s)[x] else 0
    ensures forall x :: x in Filter(keep, s) <==> x in s && keep(x)
  {
    if |s| > 0 {
      assert s == [s[0]] + s[1..];
      FilterCounts(keep, s[1..]);
    }
  }

  /** Filtering a sequence whose every element is kept changes nothing. */
  lemma {:induction false} FilterKeepsAll<T(!new)>(keep: T -> bool, s: seq<T>)
    requires forall i :: 0 <= i < |s| ==> keep(s[i])
    ensures Filter(keep, s) == s
  {
    if |s| > 0 {
      FilterKeepsAll(keep, s[1..]);
    }
  }

  /** Filtering distributes over concatenation. */
  lemma {:induction false} FilterConcat<T(!new)>(keep: T -> bool, a: seq<T>, b: seq<T>)
    ensures Filter(keep, a + b) == Filter(keep, a) + Filter(keep, b)
  {
    if |a| > 0 {
      assert (a + b)[1..] == a[1..] + b;
      FilterConcat(keep, a[1..], b);
    } else {
      assert a + b == b;
    }
  }

  /** `s` without its longest prefix of elements satisfying `p`. */
  function DropWhile<T>(p: T -> bool, s: seq<T>): (r: seq<T>)
    ensures |r| <= |s|
    ensures r == s[|s| - |r|..]
    ensures forall i :: 0 <= i < |s| - |r| ==> p(s[i])
    ensures r == [] || !p(r[0])
  {
    if |s| == 0 || !p(s[0]) then s else DropWhile(p, s[1..])
  }

  /** `s` without its longest suffix of elements satisfying `p`. */
  function DropWhileEnd<T>(p: T -> bool, s: seq<T>): (r: seq<T>)
    ensures |r| <= |s|
    ensures r == s[..|r|]
    ensures forall i :: |r| <= i < |s| ==> p(s[i])
    ensures r == [] || !p(r[|r| - 1])
  {
    if |s| == 0 || !p(s[|s| - 1]) then s else DropWhileEnd(p, s[..|s| - 1])
  }

  /** Every maximal run of consecutive elements satisfying `inRun` replaced by
      the single element `rep` (Python's `re.sub(r'X+', rep, s)` for a class X). */
  function CollapseRuns<T>(inRun: T -> bool, rep: T, s: seq<T>): (r: seq<T>)
    ensures |r| <= |s|
    ensures |s| > 0 ==> |r| > 0 && r[0] == (if inRun(s[0]) then rep else s[0])
    ensures forall i :: 0 <= i < |r| ==> r[i] == rep || (!inRun(r[i]) && r[i] in s)
    ensures NoAdjacent(inRun, r)
    decreases |s|
  {
    if |s| == 0 then []
    else if inRun(s[0]) then [rep] + CollapseRuns(inRun, rep, DropWhile(inRun, s[1..]))
    else [s[0]] + CollapseRuns(inRun, rep, s[1..])
  }

  /** A sequence whose runs are already single `rep` elements is left unchanged. */
  lemma {:induction false} CollapseRunsFixpoint<T>(inRun: T -> bool, rep: T, s: seq<T>)
    requires forall i :: 0 <= i < |s| && inRun(s[i]) ==> s[i] == rep
    requires NoAdjacent(inRun, s)
    ensures CollapseRuns(inRun, rep, s) == s
  {
    if |s| > 0 {
      if inRun(s[0]) {
        assert DropWhile(inRun, s[1..]) == s[1..] by {
          if |s| > 1 {
            assert !inRun(s[1]);
          }
        }
      }
      CollapseRunsFixpoint(inRun, rep, s[1..]);
    }
  }

  /** Collapsing runs of `inRun` elements never makes two `q` elements
      neighbours when no run element (and so not `rep`) satisfies `q`. */
  lemma {:induction false} CollapseRunsKeepsNoAdjacent<T>(inRun: T -> bool, rep: T, q: T -> bool, s: seq<T>)
    requires inRun(rep)
    requires forall x :: inRun(x) ==> !q(x)
    requires NoAdjacent(q, s)
    ensures NoAdjacent(q, CollapseRuns(inRun, rep, s))
    decreases |s|
  {
    if |s| > 0 {
      if inRun(s[0]) {
        var t := DropWhile(inRun, s[1..]);
        SuffixNoAdjacent(q, s, t);
        CollapseRunsKeepsNoAdjacent(inRun, rep, q, t);
        ConsNoAdjacent(q, rep, CollapseRuns(inRun, rep, t));
      } else {
        SuffixNoAdjacent(q, s, s[1..]);
        CollapseRunsKeepsNoAdjacent(inRun, rep, q, s[1..]);
        ConsNoAdjacent(q, s[0], CollapseRuns(inRun, rep, s[1..]));
      }
    }
  }

  /** Every suffix of a sequence without adjacent `q` elements has none either. */
  lemma SuffixNoAdjacent<T>(q: T -> bool, s: seq<T>, t: seq<T>)
    requires NoAdjacent(q, s)
    requires |t| <= |s| && t == s[|s| - |t|..]
    ensures NoAdjacent(q, t)
  {
    var k := |s| - |t|;
    assert forall i :: 0 <= i < |t| ==> t[i] == s[k + i];
  }

  /** Prepending `x` keeps `NoAdjacent` when `x` and the old head are not both `q`. */
  lemma ConsNoAdjacent<T>(q: T -> bool, x: T, r: seq<T>)
    requires NoAdjacent(q, r)
    requires r == [] || !(q(x) && q(r[0]))
    ensures NoAdjacent(q, [x] + r)
  {
    var xr := [x] + r;
    forall i | 0 <= i < |xr| - 1
      ensures !(q(xr[i]) && q(xr[i + 1]))
    {
      if i > 0 {
        assert xr[i] == r[i - 1] && xr[i + 1] == r[i];
      }
    }
  }

  /** The complement of a predicate. */
  function Not<T>(p: T -> bool): T -> bool {
    x => !p(x)
  }

  /** Filtering by a stronger predicate after a weaker one is filtering by
      the stronger one alone. */
  lemma {:induction false} FilterFilter<T(!new)>(p: T -> bool, q: T -> bool, s: seq<T>)
    requires forall x :: p(x) ==> q(x)
    ensures Filter(p, Filter(q, s)) == Filter(p, s)
  {
    if |s| > 0 {
      FilterFilter(p, q, s[1..]);
      if q(s[0]) {
        assert ([s[0]] + Filter(q, s[1..]))[1..] == Filter(q, s[1..]);
      }
    }
  }

  /** Filtering out every element leaves nothing. */
  lemma {:induction false} FilterNone<T(!new)>(p: T -> bool, s: seq<T>)
    requires forall i :: 0 <= i < |s| ==> !p(s[i])
    ensures Filter(p, s) == []
  {
    if |s| > 0 {
      FilterNone(p, s[1..]);
    }
  }

  /** Dropping a prefix of `p` elements from a concatenation: when `a` is all
      `p` the drop continues into `b`. */
  lemma {:induction false} DropWhileConcat<T>(p: T -> bool, a: seq<T>, b: seq<T>)
    ensures DropWhile(p, a + b) ==
      if DropWhile(p, a) == [] then DropWhile(p, b) else DropWhile(p, a) + b
  {
    if |a| > 0 {
      assert (a + b)[0] == a[0];
      if p(a[0]) {
        assert (a + b)[1..] == a[1..] + b;
        DropWhileConcat(p, a[1..], b);
      }
    } else {
      assert a + b == b;
    }
  }

  /** Collapsing deletes no element outside the runs, and adds none when
      `rep` itself belongs to a run. */
  lemma {:induction false} CollapseRunsKeepsOthers<T(!new)>(inRun: T -> bool, rep: T, s: seq<T>)
    requires inRun(rep)
    ensures Filter(Not(inRun), CollapseRuns(inRun, rep, s)) == Filter(Not(inRun), s)
    decreases |s|
  {
    if |s| > 0 {
      var rest := s[1..];
      assert s == [s[0]] + rest;
      FilterConcat(Not(inRun), [s[0]], rest);
      if inRun(s[0]) {
        var t := DropWhile(inRun, rest);
        var k := |rest| - |t|;
        assert rest == rest[..k] + t;
        FilterNone(Not(inRun), rest[..k]);
        FilterConcat(Not(inRun), rest[..k], t);
        CollapseRunsKeepsOthers(inRun, rep, t);
        FilterConcat(Not(inRun), [rep], CollapseRuns(inRun, rep, t));
      } else {
        CollapseRunsKeepsOthers(inRun, rep, rest);
        FilterConcat(Not(inRun), [s[0]], CollapseRuns(inRun, rep, rest));
      }
    }
  }

  /** A whole non-empty run becomes exactly one `rep`. */
  lemma CollapseRunsOfRun<T>(inRun: T -> bool, rep: T, s: seq<T>)
    requires |s| > 0
    requires forall i :: 0 <= i < |s| ==> inRun(s[i])
    ensures CollapseRuns(inRun, rep, s) == [rep]
  {
    assert DropWhile(inRun, s[1..]) == [];
  }

  /** Collapsing works piecewise across a cut that does not split a run. */
  lemma {:induction false} CollapseRunsConcat<T>(inRun: T -> bool, rep: T, s: seq<T>, t: seq<T>)
    requires s == [] || t == [] || !inRun(s[|s| - 1]) || !inRun(t[0])
    ensures CollapseRuns(inRun, rep, s + t) == CollapseRuns(inRun, rep, s) + CollapseRuns(inRun, rep, t)
    decreases |s|
  {
    if |s| == 0 {
      assert s + t == t;
    } else if inRun(s[0]) {
      var d := DropWhile(inRun, s[1..]);
      DropWhileConcat(inRun, s[1..], t);
      if d == [] {
        RunThenRest(inRun, rep, s, t);
      } else {
        assert d == s[|s| - |d|..];
        CollapseRunsConcat(inRun, rep, d, t);
        RunThenMore(inRun, rep, s, t, d);
      }
    } else {
      CollapseRunsConcat(inRun, rep, s[1..], t);
      OtherThenMore(inRun, rep, s, t);
    }
  }

  /** The step of `CollapseRunsConcat` for a run that ends inside `s`. */
  lemma RunThenMore<T>(inRun: T -> bool, rep: T, s: seq<T>, t: seq<T>, d: seq<T>)
    requires |s| > 0 && inRun(s[0]) && d == DropWhile(inRun, s[1..]) && d != []
    requires DropWhile(inRun, s[1..] + t) == d + t
    requires CollapseRuns(inRun, rep, d + t) == CollapseRuns(inRun, rep, d) + CollapseRuns(inRun, rep, t)
    ensures CollapseRuns(inRun, rep, s + t) == CollapseRuns(inRun, rep, s) + CollapseRuns(inRun, rep, t)
  {
    TailOfConcat(s, t);
    UnfoldRun(inRun, rep, s + t, d + t);
    UnfoldRun(inRun, rep, s, d);
    ConsConcat(rep, CollapseRuns(inRun, rep, s + t), CollapseRuns(inRun, rep, s),
      CollapseRuns(inRun, rep, d), CollapseRuns(inRun, rep, t));
  }

  /** The step of `CollapseRunsConcat` for an element outside any run. */
  lemma OtherThenMore<T>(inRun: T -> bool, rep: T, s: seq<T>, t: seq<T>)
    requires |s| > 0 && !inRun(s[0])
    requires CollapseRuns(inRun, rep, s[1..] + t) == CollapseRuns(inRun, rep, s[1..]) + CollapseRuns(inRun, rep, t)
    ensures CollapseRuns(inRun, rep, s + t) == CollapseRuns(inRun, rep, s) + CollapseRuns(inRun, rep, t)
  {
    TailOfConcat(s, t);
    UnfoldOther(inRun, rep, s + t, s[1..] + t);
    UnfoldOther(inRun, rep, s, s[1..]);
    ConsConcat(s[0], CollapseRuns(inRun, rep, s + t), CollapseRuns(inRun, rep, s),
      CollapseRuns(inRun, rep, s[1..]), CollapseRuns(inRun, rep, t));
  }

  /** The step of `CollapseRunsConcat` for a run that fills the rest of `s`. */
  lemma RunThenRest<T>(inRun: T -> bool, rep: T, s: seq<T>, t: seq<T>)
    requires |s| > 0 && inRun(s[0]) && DropWhile(inRun, s[1..]) == []
    requires t == [] || !inRun(t[0])
    requires DropWhile(inRun, s[1..] + t) == DropWhile(inRun, t)
    ensures CollapseRuns(inRun, rep, s + t) == CollapseRuns(inRun, rep, s) + CollapseRuns(inRun, rep, t)
  {
    RunIntoRest(inRun, rep, s, t);
    UnfoldLastRun(inRun, rep, s);
  }

  /** The run at the start of `s` ends where `t` begins. */
  lemma RunIntoRest<T>(inRun: T -> bool, rep: T, s: seq<T>, t: seq<T>)
    requires |s| > 0 && inRun(s[0])
    requires t == [] || !inRun(t[0])
    requires DropWhile(inRun, s[1..] + t) == DropWhile(inRun, t)
    ensures CollapseRuns(inRun, rep, s + t) == [rep] + CollapseRuns(inRun, rep, t)
  {
    TailOfConcat(s, t);
    DropWhileStops(inRun, t);
    UnfoldRun(inRun, rep, s + t, t);
  }

  lemma DropWhileStops<T>(p: T -> bool, t: seq<T>)
    requires t == [] || !p(t[0])
    ensures DropWhile(p, t) == t
  {
  }

  lemma TailOfConcat<T>(s: seq<T>, t: seq<T>)
    requires |s| > 0
    ensures (s + t)[0] == s[0] && (s + t)[1..] == s[1..] + t
  {
  }

  /** One step of `CollapseRuns` at the start of a run. */
  lemma UnfoldRun<T>(inRun: T -> bool, rep: T, x: seq<T>, rest: seq<T>)
    requires |x| > 0 && inRun(x[0]) && rest == DropWhile(inRun, x[1..])
    ensures CollapseRuns(inRun, rep, x) == [rep] + CollapseRuns(inRun, rep, rest)
  {
  }

  /** `CollapseRuns` on a sequence that is a single run. */
  lemma UnfoldLastRun<T>(inRun: T -> bool, rep: T, x: seq<T>)
    requires |x| > 0 && inRun(x[0]) && DropWhile(inRun, x[1..]) == []
    ensures CollapseRuns(inRun, rep, x) == [rep]
  {
  }

  /** One step of `CollapseRuns` at an element outside any run. */
  lemma UnfoldOther<T>(inRun: T -> bool, rep: T, x: seq<T>, rest: seq<T>)
    requires |x| > 0 && !inRun(x[0]) && rest == x[1..]
    ensures CollapseRuns(inRun, rep, x) == [x[0]] + CollapseRuns(inRun, rep, rest)
  {
  }

  /** Sequence algebra for the three steps above. */
  lemma ConsConcat<T>(h: T, whole: seq<T>, left: seq<T>, a: seq<T>, b: seq<T>)
    requires whole == [h] + (a + b) && left == [h] + a
    ensures whole == left + b
  {
  }

  /** Python's `s[:n]`: the first `n` elements, or all but the last `-n` when
      `n` is negative, clipped to the bounds of `s`. */
  function PyPrefix<T>(s: seq<T>, n: int): (r: seq<T>)
    ensures |r| <= |s|
    ensures r == s[..|r|]
    ensures n >= 0 ==> |r| <= n
    ensures 0 <= n <= |s| ==> |r| == n
    ensures n >= |s| ==> r == s
    ensures n < 0 ==> |r| == if |s| + n < 0 then 0 else |s| + n
  {
    var k := if n >= 0 then n else |s| + n;
    if k < 0 then [] else if k > |s| then s else s[..k]
  }
}
