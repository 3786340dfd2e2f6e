/** Small value helpers shared by the model: an optional value, order-preserving
    filtering of sequences (Kotlin's `filter`), text ranges and string joining. */
module Util {

  datatype Option<+T> = None | Some(value: T) {
    /** The value, or `default` when absent (Kotlin's `?:` / `notNullize`). */
    function GetOr(default: T): T {
      match this
      case Some(v) => v
      case None => default
    }
  }

  /** Keeps the elements of `s` that satisfy `p`, in their original order. */
  function Filter<T>(s: seq<T>, p: T -> bool): seq<T>
  {
    if s == [] then []
    else if p(s[|s| - 1]) then Filter(s[..|s| - 1], p) + [s[|s| - 1]]
    else Filter(s[..|s| - 1], p)
  }

  lemma {:induction false} FilterAppend<T>(a: seq<T>, b: seq<T>, p: T -> bool)
    ensures Filter(a + b, p) == Filter(a, p) + Filter(b, p)
    decreases |b|
  {
    if b == [] {
      assert a + b == a;
    } else {
      var b' := b[..|b| - 1];
      assert (a + b)[..|a + b| - 1] == a + b';
      FilterAppend(a, b', p);
    }
  }

  lemma AppendAssoc<T>(a: seq<T>, b: seq<T>, c: seq<T>)
    ensures a + b + c == a + (b + c)
  {
  }

  lemma AppendAssoc4<T>(a: seq<T>, b: seq<T>, c: seq<T>, d: seq<T>)
    ensures (a + b) + c + d == a + (b + c + d)
  {
  }

  /** Every element of `s` that satisfies `p` survives the filter. */
  lemma {:induction false} FilterKeeps<T>(s: seq<T>, p: T -> bool, x: T)
    ensures x in Filter(s, p) <==> x in s && p(x)
  {
    if s != [] {
      var s' := s[..|s| - 1];
      assert s == s' + [s[|s| - 1]];
      FilterKeeps(s', p, x);
    }
  }

  /** Whatever survives the filter is an element that satisfies the condition. */
  lemma {:induction false} FilterSatisfies<T>(s: seq<T>, p: T -> bool)
    ensures forall x :: x in Filter(s, p) ==> x in s && p(x)
  {
    if s != [] {
      FilterSatisfies(s[..|s| - 1], p);
    }
  }

  /** Filtering twice is filtering once by the conjunction; this is what makes a
      chain of `.filter { }` calls equal to one filter by all of the conditions. */
  lemma {:induction false} FilterFilter<T>(s: seq<T>, p: T -> bool, q: T -> bool, pq: T -> bool)
    requires forall x :: pq(x) == (p(x) && q(x))
    ensures Filter(Filter(s, p), q) == Filter(s, pq)
  {
    if s != [] {
      var s' := s[..|s| - 1];
      FilterFilter(s', p, q, pq);
      if p(s[|s| - 1]) {
        FilterAppend(Filter(s', p), [s[|s| - 1]], q);
      }
    }
  }

  lemma FilterOne<T>(x: T, p: T -> bool)
    ensures Filter([x], p) == if p(x) then [x] else []
  {
    assert [x][..0] == [];
  }

  /** Filtering by a condition that no element meets leaves nothing. */
  lemma {:induction false} FilterNone<T>(s: seq<T>, p: T -> bool)
    requires forall x :: x in s ==> !p(x)
    ensures Filter(s, p) == []
  {
    if s != [] {
      FilterNone(s[..|s| - 1], p);
    }
  }

  /** `FilterKeeps` for every element at once. */
  lemma FilterMembers<T>(s: seq<T>, p: T -> bool)
    ensures forall x :: x in Filter(s, p) <==> x in s && p(x)
  {
    forall x
      ensures x in Filter(s, p) <==> x in s && p(x)
    {
      FilterKeeps(s, p, x);
    }
  }

  /** Filters by two conditions that agree on every element give the same result. */
  lemma {:induction false} FilterExt<T>(s: seq<T>, p: T -> bool, q: T -> bool)
    requires forall x :: x in s ==> p(x) == q(x)
    ensures Filter(s, p) == Filter(s, q)
  {
    if s != [] {
      FilterExt(s[..|s| - 1], p, q);
    }
  }

  /** The values of the steps of `ts` that succeed, in order: a loop that tries
      `f` on every element and carries on past the ones that fail. */
  function Successes<T, U>(ts: seq<T>, f: T --> Option<U>): seq<U>
    requires forall t :: t in ts ==> f.requires(t)
  {
    if ts == [] then []
    else
      var last := ts[|ts| - 1];
      Successes(ts[..|ts| - 1], f) + (if f(last).Some? then [f(last).value] else [])
  }

  /** Splitting the input splits the successes. */
  lemma {:induction false} SuccessesAppend<T, U>(a: seq<T>, b: seq<T>, f: T --> Option<U>)
    requires forall t :: t in a + b ==> f.requires(t)
    ensures Successes(a + b, f) == Successes(a, f) + Successes(b, f)
    decreases |b|
  {
    if b == [] {
      assert a + b == a;
    } else {
      var b' := b[..|b| - 1];
      assert (a + b)[..|a + b| - 1] == a + b';
      SuccessesAppend(a, b', f);
    }
  }

  /** A step that fails contributes nothing and leaves the steps around it as
      they would have been on their own; a step that succeeds contributes its value. */
  lemma SuccessesAround<T, U>(ts: seq<T>, i: nat, f: T --> Option<U>)
    requires forall x :: x in ts ==> f.requires(x)
    requires i < |ts|
    ensures Successes(ts, f)
         == Successes(ts[..i], f) + (if f(ts[i]).Some? then [f(ts[i]).value] else []) + Successes(ts[i + 1..], f)
  {
    var a, b := ts[..i + 1], ts[i + 1..];
    assert ts == a + b;
    SuccessesAppend(a, b, f);
    assert a[..|a| - 1] == ts[..i];
  }

  /** A value is among the successes exactly when some element's step yields it. */
  lemma SuccessesMembers<T, U>(ts: seq<T>, f: T --> Option<U>, u: U)
    requires forall t :: t in ts ==> f.requires(t)
    ensures u in Successes(ts, f) <==> exists i :: 0 <= i < |ts| && f(ts[i]) == Some(u)
  {
    if u in Successes(ts, f) {
      SuccessesFrom(ts, f, u);
    }
    if exists i :: 0 <= i < |ts| && f(ts[i]) == Some(u) {
      var i :| 0 <= i < |ts| && f(ts[i]) == Some(u);
      SuccessesAround(ts, i, f);
    }
  }

  /** Every value among the successes is some element's step result. */
  lemma {:induction false} SuccessesFrom<T, U>(ts: seq<T>, f: T --> Option<U>, u: U)
    requires forall t :: t in ts ==> f.requires(t)
    requires u in Successes(ts, f)
    ensures exists i :: 0 <= i < |ts| && f(ts[i]) == Some(u)
  {
    var ts' := ts[..|ts| - 1];
    if u in Successes(ts', f) {
      SuccessesFrom(ts', f, u);
      var i :| 0 <= i < |ts'| && f(ts'[i]) == Some(u);
      assert ts[i] == ts'[i];
    } else {
      assert f(ts[|ts| - 1]) == Some(u);
    }
  }

  /** When every step fails there is nothing. */
  lemma {:induction false} SuccessesNone<T, U>(ts: seq<T>, f: T --> Option<U>)
    requires forall t :: t in ts ==> f.requires(t) && f(t).None?
    ensures Successes(ts, f) == []
  {
    if ts != [] {
      SuccessesNone(ts[..|ts| - 1], f);
    }
  }

  /** When every step succeeds there is one value per element, in order. */
  lemma {:induction false} SuccessesAll<T, U>(ts: seq<T>, f: T --> Option<U>)
    requires forall t :: t in ts ==> f.requires(t) && f(t).Some?
    ensures |Successes(ts, f)| == |ts|
    ensures forall i :: 0 <= i < |ts| ==> Successes(ts, f)[i] == f(ts[i]).value
  {
    if ts != [] {
      SuccessesAll(ts[..|ts| - 1], f);
    }
  }

  /** A half-open range `[start, end)` of offsets into a text. */
  datatype TextRange = TextRange(start: nat, end: nat) {
    predicate Valid() { start <= end }
    function Length(): nat requires Valid() { end - start }
  }

  /** The range of `length` characters beginning at `start` (`TextRange.from`). */
  function RangeFrom(start: nat, length: nat): (r: TextRange)
    ensures r.Valid() && r.start == start && r.Length() == length
  {
    TextRange(start, start + length)
  }

  /** `ss` joined with `sep` between consecutive elements. */
  function Join(ss: seq<string>, sep: string): string
  {
    if |ss| == 0 then ""
    else if |ss| == 1 then ss[0]
    else Join(ss[..|ss| - 1], sep) + sep + ss[|ss| - 1]
  }
}
