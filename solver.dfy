/** The front end: feeding clues into the logic machine, and the
    exhaustive search over the templates that the logic left possible. */
module Solver {
  import opened Patterns
  import opened Units
  import opened Templates
  import opened Setup

  /** A digit (0-based) and the templates that fit its possible cells. */
  type Entry = (nat, seq<Template>)

  /** Bound on the number of solutions `search` records.  It returns once
      it holds `maxSolutions` of them, checking only after a nested call.
      So for `maxSolutions == 0` every level returns after its first nested
      call: the search follows the first fitting template at each depth and
      records at most one solution, none when that path dead-ends. */
  function Cap(maxSolutions: nat): nat
  {
    if maxSolutions == 0 then 1 else maxSolutions
  }

  // ---------------------------------------------------------------------------
  // State of the search

  /** No two entries are for the same digit. */
  predicate DigitsDistinct(entries: seq<Entry>)
  {
    forall i, j :: 0 <= i < j < |entries| ==> entries[i].0 != entries[j].0
  }

  /** What `search` works through: nine entries for nine different digits,
      every listed template naming a catalog entry. */
  ghost predicate Plan(entries: seq<Entry>, catalog: seq<Pattern>)
  {
    IsCatalog(catalog) && |entries| == 9 && DigitsDistinct(entries) &&
    forall j :: 0 <= j < 9 ==>
      entries[j].0 < 9 && forall t :: t in entries[j].1 ==> t.index < |catalog|
  }

  /** The scratch solution gives the digit of each of the first `k` entries
      one of that entry's templates. */
  ghost predicate Chosen(sol: seq<Template>, entries: seq<Entry>, k: nat, catalog: seq<Pattern>)
    requires Plan(entries, catalog) && |sol| == 9 && k <= 9
  {
    forall j :: 0 <= j < k ==> sol[entries[j].0] in entries[j].1
  }

  /** Layout the scratch solution gives the digit of entry `j`. */
  ghost function Placed(sol: seq<Template>, entries: seq<Entry>, j: nat, catalog: seq<Pattern>): Pattern
    requires Plan(entries, catalog) && |sol| == 9 && j < 9 && sol[entries[j].0] in entries[j].1
  {
    AsPattern(catalog, sol[entries[j].0])
  }

  /** The layouts chosen for the first `k` entries do not overlap. */
  ghost predicate Apart(sol: seq<Template>, entries: seq<Entry>, k: nat, catalog: seq<Pattern>)
    requires Plan(entries, catalog) && |sol| == 9 && k <= 9 && Chosen(sol, entries, k, catalog)
  {
    forall i, j :: 0 <= i < j < k ==>
      !Intersects(Placed(sol, entries, i, catalog), Placed(sol, entries, j, catalog))
  }

  /** Union of the layouts chosen for the first `k` entries: the `filled`
      pattern `search` carries. */
  ghost function Filled(sol: seq<Template>, entries: seq<Entry>, k: nat, catalog: seq<Pattern>): Pattern
    requires Plan(entries, catalog) && |sol| == 9 && k <= 9 && Chosen(sol, entries, k, catalog)
  {
    if k == 0 then EMPTY
    else Or(Filled(sol, entries, k - 1, catalog), Placed(sol, entries, k - 1, catalog))
  }

  /** A solution `search` may record: every entry's digit has one of the
      entry's templates, and no two of them overlap. */
  ghost predicate Recorded(s: Solution, entries: seq<Entry>, catalog: seq<Pattern>)
    requires Plan(entries, catalog)
  {
    |s.templates| == 9 && Chosen(s.templates, entries, 9, catalog) &&
    Apart(s.templates, entries, 9, catalog)
  }

  /** The solutions from position `from` on may be recorded. */
  ghost predicate RecordedFrom(out: seq<Solution>, from: nat, entries: seq<Entry>, catalog: seq<Pattern>)
    requires Plan(entries, catalog)
  {
    forall n :: from <= n < |out| ==> Recorded(out[n], entries, catalog)
  }

  /** Extending a list of recordable solutions by more of them. */
  lemma RecordedExtend(out: seq<Solution>, out': seq<Solution>, from: nat, entries: seq<Entry>,
                       catalog: seq<Pattern>)
    requires Plan(entries, catalog) && from <= |out| <= |out'| && out'[..|out|] == out
    requires RecordedFrom(out, from, entries, catalog) && RecordedFrom(out', |out|, entries, catalog)
    ensures RecordedFrom(out', from, entries, catalog)
  {
    forall n | from <= n < |out'|
      ensures Recorded(out'[n], entries, catalog)
    {
      if n < |out| {
        assert out'[n] == out[n];
      }
    }
  }

  /** Only the choices for the first `k` entries matter to `Chosen`,
      `Apart` and `Filled`. */
  lemma {:induction false} FilledFrame(sol: seq<Template>, sol': seq<Template>, entries: seq<Entry>, k: nat,
                                       catalog: seq<Pattern>)
    requires Plan(entries, catalog) && |sol| == 9 && |sol'| == 9 && k <= 9
    requires Chosen(sol, entries, k, catalog)
    requires forall j :: 0 <= j < k ==> sol'[entries[j].0] == sol[entries[j].0]
    ensures Chosen(sol', entries, k, catalog)
    ensures Filled(sol', entries, k, catalog) == Filled(sol, entries, k, catalog)
    ensures Apart(sol, entries, k, catalog) ==> Apart(sol', entries, k, catalog)
  {
    if k > 0 {
      FilledFrame(sol, sol', entries, k - 1, catalog);
    }
    forall j | 0 <= j < k
      ensures Placed(sol', entries, j, catalog) == Placed(sol, entries, j, catalog)
    {
    }
  }

  /** A layout misses the union of the chosen layouts exactly when it
      misses each of them. */
  lemma {:induction false} FilledMeets(sol: seq<Template>, entries: seq<Entry>, k: nat, catalog: seq<Pattern>,
                                       p: Pattern)
    requires Plan(entries, catalog) && |sol| == 9 && k <= 9 && Chosen(sol, entries, k, catalog)
    ensures !Intersects(p, Filled(sol, entries, k, catalog)) <==>
      forall j :: 0 <= j < k ==> !Intersects(Placed(sol, entries, j, catalog), p)
  {
    if k == 0 {
      IntersectsMeaning(p, EMPTY);
    } else {
      var last := Placed(sol, entries, k - 1, catalog);
      FilledMeets(sol, entries, k - 1, catalog, p);
      IntersectsOr(p, Filled(sol, entries, k - 1, catalog), last);
      IntersectsSymmetric(p, last);
    }
  }

  /** Committing template `t` for entry `k`, which misses every earlier
      choice, extends the search state by one entry. */
  lemma Commit(sol: seq<Template>, sol': seq<Template>, entries: seq<Entry>, k: nat, catalog: seq<Pattern>,
               t: Template)
    requires Plan(entries, catalog) && |sol| == 9 && k < 9
    requires Chosen(sol, entries, k, catalog) && Apart(sol, entries, k, catalog)
    requires t in entries[k].1 && !Intersects(AsPattern(catalog, t), Filled(sol, entries, k, catalog))
    requires sol' == sol[entries[k].0 := t]
    ensures Chosen(sol', entries, k + 1, catalog) && Apart(sol', entries, k + 1, catalog)
    ensures Filled(sol', entries, k + 1, catalog) == Or(Filled(sol, entries, k, catalog), AsPattern(catalog, t))
  {
    forall j | 0 <= j < k
      ensures sol'[entries[j].0] == sol[entries[j].0]
    {
      assert entries[j].0 != entries[k].0;
    }
    FilledFrame(sol, sol', entries, k, catalog);
    FilledMeets(sol, entries, k, catalog, AsPattern(catalog, t));
    assert Placed(sol', entries, k, catalog) == AsPattern(catalog, t);
    forall i, j | 0 <= i < j < k + 1
      ensures !Intersects(Placed(sol', entries, i, catalog), Placed(sol', entries, j, catalog))
    {
      if j == k {
        assert Placed(sol', entries, i, catalog) == Placed(sol, entries, i, catalog);
      }
    }
  }

  /** `s` is a solution `search` may record that keeps the templates
      already chosen for the first `k` entries. */
  ghost predicate Extends(s: seq<Template>, sol: seq<Template>, entries: seq<Entry>, k: nat, catalog: seq<Pattern>)
    requires Plan(entries, catalog) && |sol| == 9 && k <= 9
  {
    |s| == 9 && Recorded(Solution(s), entries, catalog) &&
    forall j :: 0 <= j < k ==> s[entries[j].0] == sol[entries[j].0]
  }

  /** A recordable solution that keeps the first `k` choices gives entry `k`
      one of its templates, and that template misses every layout chosen so
      far: `search` never skips it. */
  lemma Unblocked(s: seq<Template>, sol: seq<Template>, entries: seq<Entry>, k: nat, catalog: seq<Pattern>)
    requires Plan(entries, catalog) && |sol| == 9 && k < 9 && Chosen(sol, entries, k, catalog)
    requires Extends(s, sol, entries, k, catalog)
    ensures s[entries[k].0] in entries[k].1
    ensures !Intersects(AsPattern(catalog, s[entries[k].0]), Filled(sol, entries, k, catalog))
  {
    FilledFrame(sol, s, entries, k, catalog);
    var p := Placed(s, entries, k, catalog);
    FilledMeets(s, entries, k, catalog, p);
    forall j | 0 <= j < k
      ensures !Intersects(Placed(s, entries, j, catalog), p)
    {
    }
  }

  /** Committing template `t` for entry `k` keeps every recordable solution
      that has `t` there. */
  lemma ExtendsCommit(s: seq<Template>, sol0: seq<Template>, sol: seq<Template>, sol': seq<Template>,
                      entries: seq<Entry>, k: nat, catalog: seq<Pattern>, t: Template)
    requires Plan(entries, catalog) && |sol0| == 9 && |sol| == 9 && k < 9
    requires forall j :: 0 <= j < k ==> sol[entries[j].0] == sol0[entries[j].0]
    requires sol' == sol[entries[k].0 := t]
    requires Extends(s, sol0, entries, k, catalog) && s[entries[k].0] == t
    ensures Extends(s, sol', entries, k + 1, catalog)
  {
    forall j | 0 <= j < k + 1
      ensures s[entries[j].0] == sol'[entries[j].0]
    {
      if j < k {
        assert entries[j].0 != entries[k].0;
      }
    }
  }

  /** When every digit has an entry, the only solution that keeps all nine
      choices is the scratch solution itself. */
  lemma ExtendsAll(s: seq<Template>, sol: seq<Template>, entries: seq<Entry>, catalog: seq<Pattern>)
    requires Plan(entries, catalog) && Covers(entries) && |sol| == 9
    requires Extends(s, sol, entries, 9, catalog)
    ensures s == sol
  {
    forall d | 0 <= d < 9
      ensures s[d] == sol[d]
    {
      assert HasEntry(entries, d);
    }
  }

  /** A solution that keeps the first `k + 1` choices of the state after
      committing entry `k` keeps the first `k` choices of the state before,
      and has the committed template for entry `k`. */
  lemma ExtendsBack(s: seq<Template>, sol0: seq<Template>, sol': seq<Template>,
                    entries: seq<Entry>, k: nat, catalog: seq<Pattern>)
    requires Plan(entries, catalog) && |sol0| == 9 && |sol'| == 9 && k < 9
    requires forall j :: 0 <= j < k ==> sol'[entries[j].0] == sol0[entries[j].0]
    requires Extends(s, sol', entries, k + 1, catalog)
    ensures Extends(s, sol0, entries, k, catalog) && s[entries[k].0] == sol'[entries[k].0]
  {
  }

  /** Every entry lists each template at most once, as `within` does. */
  ghost predicate ListsDistinct(entries: seq<Entry>)
  {
    forall j :: 0 <= j < |entries| ==> Distinct(entries[j].1)
  }

  /** The lists of `solve` are repetition-free. */
  lemma ListedDistinct(entries: seq<Entry>, catalog: seq<Pattern>, ps: seq<Pattern>)
    requires |ps| == 9 && Listed(entries, catalog, ps)
    ensures ListsDistinct(entries)
  {
    forall j | 0 <= j < |entries|
      ensures Distinct(entries[j].1)
    {
      var ts := entries[j].1;
      assert forall a, b :: 0 <= a < b < |ts| ==> ts[a].index < ts[b].index;
    }
  }

  /** The solutions from position `from` on are pairwise different. */
  predicate DistinctFrom(out: seq<Solution>, from: nat)
  {
    forall m, n :: from <= m < n < |out| ==> out[m] != out[n]
  }

  /** The solutions from position `from` on keep the first `k` choices of
      `sol`. */
  ghost predicate KeptFrom(out: seq<Solution>, from: nat, sol: seq<Template>, entries: seq<Entry>, k: nat,
                           catalog: seq<Pattern>)
    requires Plan(entries, catalog) && |sol| == 9 && k <= 9
  {
    forall n :: from <= n < |out| ==> Extends(out[n].templates, sol, entries, k, catalog)
  }

  /** Solutions that keep choices are solutions `search` may record. */
  lemma KeptRecorded(out: seq<Solution>, from: nat, sol: seq<Template>, entries: seq<Entry>, k: nat,
                     catalog: seq<Pattern>)
    requires Plan(entries, catalog) && |sol| == 9 && k <= 9
    requires KeptFrom(out, from, sol, entries, k, catalog)
    ensures RecordedFrom(out, from, entries, catalog)
  {
    forall n | from <= n < |out|
      ensures Recorded(out[n], entries, catalog)
    {
      assert Extends(out[n].templates, sol, entries, k, catalog);
    }
  }

  /** Once every entry has its template, recording the scratch solution
      records the one solution that keeps all nine choices. */
  lemma RecordLeaf(out: seq<Solution>, sol: seq<Template>, entries: seq<Entry>, catalog: seq<Pattern>)
    requires Plan(entries, catalog) && Covers(entries) && |sol| == 9
    requires Chosen(sol, entries, 9, catalog) && Apart(sol, entries, 9, catalog)
    ensures RecordedFrom(out + [Solution(sol)], |out|, entries, catalog)
    ensures KeptFrom(out + [Solution(sol)], |out|, sol, entries, 9, catalog)
    ensures DistinctFrom(out + [Solution(sol)], |out|)
    ensures forall s :: Extends(s, sol, entries, 9, catalog) ==> Solution(s) in (out + [Solution(sol)])[|out|..]
  {
    var out' := out + [Solution(sol)];
    assert Extends(sol, sol, entries, 9, catalog);
    assert out'[|out|..] == [Solution(sol)];
    forall s | Extends(s, sol, entries, 9, catalog)
      ensures Solution(s) in out'[|out|..]
    {
      ExtendsAll(s, sol, entries, catalog);
    }
  }

  /** The solutions from position `from` on give `digit` one of the
      templates `ts`. */
  ghost predicate ChoseAmong(out: seq<Solution>, from: nat, digit: nat, ts: seq<Template>)
  {
    forall n :: from <= n < |out| ==> digit < |out[n].templates| && out[n].templates[digit] in ts
  }

  /** The solutions recorded under the `i`-th template of entry `k`,
      appended to those recorded under its earlier templates, keep the first
      `k` choices, give entry `k` one of its first `i + 1` templates, hold
      every recordable solution that does (unless the cap was reached) and,
      when the entry lists no template twice, differ from each other. */
  lemma Join(prior: seq<Solution>, out: seq<Solution>, from: nat, sol0: seq<Template>, entries: seq<Entry>,
             k: nat, catalog: seq<Pattern>, i: nat, maxSolutions: nat)
    requires Plan(entries, catalog) && |sol0| == 9 && k < 9 && i < |entries[k].1|
    requires from <= |prior| <= |out| && out[..|prior|] == prior
    requires KeptFrom(prior, from, sol0, entries, k, catalog)
    requires ChoseAmong(prior, from, entries[k].0, entries[k].1[..i])
    requires ListsDistinct(entries) ==> DistinctFrom(prior, from)
    requires |prior| < maxSolutions ==>
      forall s :: Extends(s, sol0, entries, k, catalog) && s[entries[k].0] in entries[k].1[..i] ==>
        Solution(s) in prior[from..]
    requires KeptFrom(out, |prior|, sol0, entries, k, catalog)
    requires ChoseAmong(out, |prior|, entries[k].0, [entries[k].1[i]])
    requires ListsDistinct(entries) ==> DistinctFrom(out, |prior|)
    requires |out| < maxSolutions ==>
      forall s :: Extends(s, sol0, entries, k, catalog) && s[entries[k].0] == entries[k].1[i] ==>
        Solution(s) in out[|prior|..]
    ensures KeptFrom(out, from, sol0, entries, k, catalog)
    ensures ChoseAmong(out, from, entries[k].0, entries[k].1[..i + 1])
    ensures ListsDistinct(entries) ==> DistinctFrom(out, from)
    ensures |out| < maxSolutions ==>
      forall s :: Extends(s, sol0, entries, k, catalog) && s[entries[k].0] in entries[k].1[..i + 1] ==>
        Solution(s) in out[from..]
  {
    var digit, possible, t := entries[k].0, entries[k].1, entries[k].1[i];
    forall n | from <= n < |prior|
      ensures out[n] == prior[n]
    {
      assert out[..|prior|][n] == prior[n];
    }
    assert possible[..i + 1] == possible[..i] + [t];
    if ListsDistinct(entries) {
      assert t !in possible[..i] by {
        assert Distinct(possible);
      }
      forall m, n | from <= m < n < |out|
        ensures out[m] != out[n]
      {
        if n < |prior| {
          assert out[m] == prior[m] && out[n] == prior[n];
        } else if m < |prior| {
          assert out[m] == prior[m] && out[n].templates[digit] in [t];
        }
      }
    }
    if |out| < maxSolutions {
      forall s | Extends(s, sol0, entries, k, catalog) && s[digit] in possible[..i + 1]
        ensures Solution(s) in out[from..]
      {
        if s[digit] == t {
          InEarlier(out, from, |prior|, Solution(s));
        } else {
          InLonger(prior, out, from, Solution(s));
        }
      }
    }
  }

  /** Appending to a list keeps what its suffix from `m` held. */
  lemma InLonger(out: seq<Solution>, out': seq<Solution>, m: nat, x: Solution)
    requires m <= |out| <= |out'| && out'[..|out|] == out && x in out[m..]
    ensures x in out'[m..]
  {
    var n :| m <= n < |out| && out[n] == x;
    assert out'[n] == x;
  }

  /** A later suffix lies within an earlier one. */
  lemma InEarlier(out: seq<Solution>, m: nat, n: nat, x: Solution)
    requires m <= n <= |out| && x in out[n..]
    ensures x in out[m..]
  {
    var i :| n <= i < |out| && out[i] == x;
    assert out[m..][i - m] == x;
  }

  // ---------------------------------------------------------------------------
  // Depth-first search

  /** Try every template of entry `k` that misses `filled`, then recurse on
      the rest; record a copy of the scratch solution once every entry has
      its template, and return after a nested call that leaves at least
      `maxSolutions` recorded.  `k` is
      the position of the slice `search` receives within the sorted
      entries. */
  method Search(out: seq<Solution>, sol: array<Template>, filled: Pattern, entries: seq<Entry>, k: nat,
                maxSolutions: nat, catalog: seq<Pattern>) returns (out': seq<Solution>)
    requires Plan(entries, catalog) && Covers(entries) && sol.Length == 9 && k <= 9
    requires Chosen(sol[..], entries, k, catalog) && Apart(sol[..], entries, k, catalog)
    requires filled == Filled(sol[..], entries, k, catalog)
    requires |out| < Cap(maxSolutions)
    modifies sol
    ensures |out| <= |out'| <= Cap(maxSolutions) && out'[..|out|] == out
    ensures RecordedFrom(out', |out|, entries, catalog)
    ensures forall j :: 0 <= j < k ==> sol[entries[j].0] == old(sol[entries[j].0])
    ensures |out'| < maxSolutions ==>
      forall s :: Extends(s, old(sol[..]), entries, k, catalog) ==> Solution(s) in out'[|out|..]
    ensures KeptFrom(out', |out|, old(sol[..]), entries, k, catalog)
    ensures ListsDistinct(entries) ==> DistinctFrom(out', |out|)
    decreases 9 - k, 1
  {
    if k == 9 {
      out' := out + [Solution(sol[..])];
      RecordLeaf(out, sol[..], entries, catalog);
      return;
    }
    var digit := entries[k].0;
    var possible := entries[k].1;
    out' := out;
    for i := 0 to |possible|
      invariant |out| <= |out'| < Cap(maxSolutions) && out'[..|out|] == out
      invariant forall j :: 0 <= j < k ==> sol[entries[j].0] == old(sol[entries[j].0])
      invariant |out'| < maxSolutions ==> forall s ::
        Extends(s, old(sol[..]), entries, k, catalog) && s[digit] in possible[..i] ==> Solution(s) in out'[|out|..]
      invariant KeptFrom(out', |out|, old(sol[..]), entries, k, catalog)
      invariant ChoseAmong(out', |out|, digit, possible[..i])
      invariant ListsDistinct(entries) ==> DistinctFrom(out', |out|)
    {
      FilledFrame(old(sol[..]), sol[..], entries, k, catalog);
      ghost var prior := out';
      out' := Try(out', sol, filled, entries, k, maxSolutions, catalog, i, old(sol[..]));
      assert out'[..|out|] == prior[..|out|];
      Join(prior, out', |out|, old(sol[..]), entries, k, catalog, i, maxSolutions);
      if |out'| >= maxSolutions {
        KeptRecorded(out', |out|, old(sol[..]), entries, k, catalog);
        return;
      }
    }
    KeptRecorded(out', |out|, old(sol[..]), entries, k, catalog);
    assert possible[..|possible|] == possible;
    forall s | Extends(s, old(sol[..]), entries, k, catalog)
      ensures s[digit] in possible
    {
      assert Chosen(s, entries, 9, catalog);
    }
  }

  /** One turn of `search`'s loop: skip the `i`-th template of entry `k`
      when it meets `filled`, otherwise commit it and search the remaining
      entries.  `sol0` is the scratch solution the loop started from. */
  method Try(out: seq<Solution>, sol: array<Template>, filled: Pattern, entries: seq<Entry>, k: nat,
             maxSolutions: nat, catalog: seq<Pattern>, i: nat, ghost sol0: seq<Template>)
    returns (out': seq<Solution>)
    requires Plan(entries, catalog) && Covers(entries) && sol.Length == 9 && k < 9 && i < |entries[k].1|
    requires |sol0| == 9 && forall j :: 0 <= j < k ==> sol[entries[j].0] == sol0[entries[j].0]
    requires Chosen(sol[..], entries, k, catalog) && Apart(sol[..], entries, k, catalog)
    requires filled == Filled(sol[..], entries, k, catalog)
    requires |out| < Cap(maxSolutions)
    modifies sol
    ensures |out| <= |out'| <= Cap(maxSolutions) && out'[..|out|] == out
    ensures forall j :: 0 <= j < k ==> sol[entries[j].0] == sol0[entries[j].0]
    ensures KeptFrom(out', |out|, sol0, entries, k, catalog)
    ensures ChoseAmong(out', |out|, entries[k].0, [entries[k].1[i]])
    ensures ListsDistinct(entries) ==> DistinctFrom(out', |out|)
    ensures |out'| < maxSolutions ==>
      forall s :: Extends(s, sol0, entries, k, catalog) && s[entries[k].0] == entries[k].1[i] ==>
        Solution(s) in out'[|out|..]
    decreases 9 - k, 0
  {
    var digit, t := entries[k].0, entries[k].1[i];
    var p := AsPattern(catalog, t);
    forall j | 0 <= j < k
      ensures entries[j].0 != digit
    {
    }
    if Intersects(p, filled) {
      forall s | Extends(s, sol0, entries, k, catalog)
        ensures s[digit] != t
      {
        Unblocked(s, sol[..], entries, k, catalog);
      }
      return out;
    }
    ghost var before := sol[..];
    sol[digit] := t;
    ghost var after := sol[..];
    Commit(before, after, entries, k, catalog, t);
    out' := Search(out, sol, Or(filled, p), entries, k + 1, maxSolutions, catalog);
    forall n | |out| <= n < |out'|
      ensures Extends(out'[n].templates, sol0, entries, k, catalog) && out'[n].templates[digit] == t
    {
      ExtendsBack(out'[n].templates, sol0, after, entries, k, catalog);
    }
    forall s | Extends(s, sol0, entries, k, catalog) && s[digit] == t
      ensures Extends(s, after, entries, k + 1, catalog)
    {
      ExtendsCommit(s, sol0, before, after, entries, k, catalog, t);
    }
  }


  // ---------------------------------------------------------------------------
  // Ordering the digits

  /** Entries in ascending order of the length of their lists. */
  predicate SortedByLength(s: seq<Entry>)
  {
    forall i, j :: 0 <= i < j < |s| ==> |s[i].1| <= |s[j].1|
  }

  /** Sort the entries, most restricted digit first (insertion sort, which
      like the source's sort keeps entries of equal length in order). */
  method SortByLength(a: array<Entry>)
    modifies a
    ensures SortedByLength(a[..])
    ensures multiset(a[..]) == multiset(old(a[..]))
  {
    for i := 0 to a.Length
      invariant forall m, n :: 0 <= m < n < i ==> |a[m].1| <= |a[n].1|
      invariant multiset(a[..]) == multiset(old(a[..]))
    {
      Insert(a, i);
    }
  }

  /** Move entry `i` down past the longer entries before it, so that the
      first `i + 1` entries are in order. */
  method Insert(a: array<Entry>, i: nat)
    requires i < a.Length
    requires forall m, n :: 0 <= m < n < i ==> |a[m].1| <= |a[n].1|
    modifies a
    ensures forall m, n :: 0 <= m < n <= i ==> |a[m].1| <= |a[n].1|
    ensures multiset(a[..]) == multiset(old(a[..]))
  {
    var j := i;
    while j > 0 && |a[j - 1].1| > |a[j].1|
      invariant 0 <= j <= i
      invariant forall m, n :: 0 <= m < n <= i && m != j && n != j ==> |a[m].1| <= |a[n].1|
      invariant forall n :: j < n <= i ==> |a[j].1| <= |a[n].1|
      invariant multiset(a[..]) == multiset(old(a[..]))
    {
      Swap(a, j - 1, j);
      j := j - 1;
    }
  }

  /** Exchange two entries. */
  method Swap(a: array<Entry>, i: nat, j: nat)
    requires i < j < a.Length
    modifies a
    ensures a[..] == old(a[..])[i := old(a[j])][j := old(a[i])]
    ensures multiset(a[..]) == multiset(old(a[..]))
  {
    a[i], a[j] := a[j], a[i];
  }

  /** A value occurs at most once in a sequence without repetition. */
  lemma {:induction false} DistinctOnce<T>(s: seq<T>, x: T)
    requires Distinct(s)
    ensures multiset(s)[x] <= 1
  {
    if s != [] {
      var init := s[..|s| - 1];
      assert s == init + [s[|s| - 1]];
      DistinctOnce(init, x);
      if x == s[|s| - 1] {
        assert x !in init;
      }
    }
  }

  /** A value at two positions occurs at least twice. */
  lemma TwiceCounted<T>(s: seq<T>, i: nat, j: nat)
    requires i < j < |s| && s[i] == s[j]
    ensures multiset(s)[s[i]] >= 2
  {
    assert s == s[..j] + s[j..];
    assert s[i] in s[..j];
    assert s[j] in s[j..];
  }

  /** The list of `solve`: digit `d`'s entry holds the templates within
      `ps[d]`. */
  ghost predicate Listed(entries: seq<Entry>, catalog: seq<Pattern>, ps: seq<Pattern>)
    requires |ps| == 9
  {
    forall j :: 0 <= j < |entries| ==> entries[j].0 < 9 && entries[j].1 == Within(catalog, ps[entries[j].0])
  }

  /** Some entry is for digit `d`. */
  ghost predicate HasEntry(entries: seq<Entry>, d: nat)
  {
    exists j :: 0 <= j < |entries| && entries[j].0 == d
  }

  /** Every digit has an entry. */
  ghost predicate Covers(entries: seq<Entry>)
  {
    forall d :: 0 <= d < 9 ==> HasEntry(entries, d)
  }

  /** Any reordering of the digit-ordered lists is a plan for `search` that
      still pairs each digit with its own list and leaves no digit out. */
  lemma SortedPlan(orig: seq<Entry>, sorted: seq<Entry>, catalog: seq<Pattern>, ps: seq<Pattern>)
    requires |ps| == 9 && IsCatalog(catalog) && |orig| == 9
    requires forall d :: 0 <= d < 9 ==> orig[d] == (d, Within(catalog, ps[d]))
    requires multiset(sorted) == multiset(orig)
    ensures Plan(sorted, catalog) && Listed(sorted, catalog, ps) && Covers(sorted)
  {
    assert |sorted| == |multiset(sorted)| == 9;
    forall j | 0 <= j < 9
      ensures sorted[j].0 < 9 && sorted[j].1 == Within(catalog, ps[sorted[j].0])
    {
      assert sorted[j] in multiset(orig);
    }
    forall d | 0 <= d < 9
      ensures HasEntry(sorted, d)
    {
      assert orig[d] in multiset(sorted);
    }
    forall i, j | 0 <= i < j < 9
      ensures sorted[i].0 != sorted[j].0
    {
      if sorted[i].0 == sorted[j].0 {
        assert sorted[i] == sorted[j];
        TwiceCounted(sorted, i, j);
        DistinctOnce(orig, sorted[i]);
      }
    }
  }

  // ---------------------------------------------------------------------------
  // From search results to grids

  /** The digit of entry `j` has, in a recorded solution, a template within
      its possible cells. */
  lemma RecordedFits(s: Solution, entries: seq<Entry>, catalog: seq<Pattern>, ps: seq<Pattern>, j: nat)
    requires Plan(entries, catalog) && |ps| == 9 && Listed(entries, catalog, ps)
    requires Recorded(s, entries, catalog) && j < 9
    ensures s.templates[entries[j].0].index < |catalog|
    ensures IsSubset(catalog[s.templates[entries[j].0].index], ps[entries[j].0])
  {
    assert s.templates[entries[j].0] in Within(catalog, ps[entries[j].0]);
  }

  /** A recorded solution for a plan that covers every digit with the
      templates within that digit's possible cells is a valid solution
      whose layouts fit those cells. */
  lemma RecordedSolution(s: Solution, entries: seq<Entry>, catalog: seq<Pattern>, ps: seq<Pattern>)
    requires Plan(entries, catalog) && |ps| == 9 && Listed(entries, catalog, ps) && Covers(entries)
    requires Recorded(s, entries, catalog)
    ensures WellFormed(s, catalog) && PairwiseDisjoint(s, catalog)
    ensures forall d :: 0 <= d < 9 ==> IsSubset(Layout(s, catalog, d), ps[d])
  {
    forall d | 0 <= d < 9
      ensures s.templates[d].index < |catalog| && IsSubset(catalog[s.templates[d].index], ps[d])
    {
      assert HasEntry(entries, d);
      var j :| 0 <= j < |entries| && entries[j].0 == d;
      RecordedFits(s, entries, catalog, ps, j);
    }
    assert WellFormed(s, catalog);
    forall a, b | 0 <= a < b < 9
      ensures !Intersects(Layout(s, catalog, a), Layout(s, catalog, b))
    {
      assert HasEntry(entries, a) && HasEntry(entries, b);
      var ja :| 0 <= ja < |entries| && entries[ja].0 == a;
      var jb :| 0 <= jb < |entries| && entries[jb].0 == b;
      assert Placed(s.templates, entries, ja, catalog) == Layout(s, catalog, a);
      assert Placed(s.templates, entries, jb, catalog) == Layout(s, catalog, b);
      IntersectsSymmetric(Layout(s, catalog, a), Layout(s, catalog, b));
    }
  }

  /** Clue `v` (1..9) at `x`: every other digit is gone from `x`. */
  ghost predicate Clue(ps: seq<Pattern>, x: Cell, v: nat)
    requires |ps| == 9 && InGrid(x)
  {
    1 <= v <= 9 && forall d :: 0 <= d < 9 && d != v - 1 ==> !At(ps[d], x)
  }

  /** Removing possibilities keeps a clue. */
  lemma ClueKept(ps: seq<Pattern>, ps': seq<Pattern>, x: Cell, v: nat)
    requires |ps| == 9 && InGrid(x) && Shrinks(ps, ps') && Clue(ps, x, v)
    ensures Clue(ps', x, v)
  {
    forall d | 0 <= d < 9 && d != v - 1
      ensures !At(ps'[d], x)
    {
      assert ps'[d].bits <= ps[d].bits;
    }
  }

  /** A clue in a cell that still has a digit leaves exactly the clue. */
  lemma ClueOnly(ps: seq<Pattern>, x: Cell, v: nat)
    requires |ps| == 9 && InGrid(x) && Clue(ps, x, v) && DigitCount(ps, x) >= 1
    ensures Only(ps, x, v - 1)
  {
    var d := DigitCountPositive(ps, x);
    assert d == v - 1;
  }

  /** The grid of a solution whose layouts fit `ps` shows every clue of
      `ps`. */
  lemma GridShowsClue(s: Solution, catalog: seq<Pattern>, ps: seq<Pattern>, x: Cell, v: nat)
    requires WellFormed(s, catalog) && Complete(s, catalog) && |ps| == 9 && InGrid(x)
    requires forall d :: 0 <= d < 9 ==> IsSubset(Layout(s, catalog, d), ps[d])
    requires Clue(ps, x, v)
    ensures ToGrid(s, catalog)[Idx(x)] == v
  {
    var d := ToGrid(s, catalog)[Idx(x)] - 1;
    SubsetMeaning(Layout(s, catalog, d), ps[d]);
    assert At(ps[d], x);
  }

  /** The grid agrees with every nonzero clue among the first `k` cells. */
  ghost predicate AgreesBelow(g: seq<nat>, puzzle: seq<nat>, k: nat)
    requires |g| == 81 && |puzzle| >= 81
  {
    forall i :: 0 <= i < k && i < 81 && puzzle[i] > 0 ==> g[i] == puzzle[i]
  }

  /** The grid agrees with every nonzero clue of the puzzle. */
  ghost predicate Agrees(g: seq<nat>, puzzle: seq<nat>)
    requires |g| == 81 && |puzzle| >= 81
  {
    AgreesBelow(g, puzzle, 81)
  }

  /** The clues of a 9 × 9 input in row-major order. */
  function Flatten(input: seq<seq<nat>>): (puzzle: seq<nat>)
    requires |input| == 9 && forall row :: 0 <= row < 9 ==> |input[row]| == 9
    ensures |puzzle| == 81
    ensures forall row, col :: 0 <= row < 9 && 0 <= col < 9 ==> puzzle[9 * row + col] == input[row][col]
  {
    IdxFacts();
    seq(81, i requires 0 <= i < 81 => input[i / 9][i % 9])
  }

  /** The solved grids that fit `ps` are exactly those that agree with the
      clues among the first `k` cells. */
  ghost predicate FitsClues(ps: seq<Pattern>, puzzle: seq<nat>, k: nat)
    requires |ps| == 9 && |puzzle| >= 81
  {
    forall g :: IsSolvedGrid(g) ==> (Fits(g, ps) <==> AgreesBelow(g, puzzle, k))
  }

  /** Setting the clue of cell `x` keeps exactly the solved grids that also
      show that clue: the solved grids that fit are those agreeing with the
      clues up to and including `x`. */
  lemma AgreesStep(ps: seq<Pattern>, ps': seq<Pattern>, puzzle: seq<nat>, x: Cell)
    requires |ps| == 9 && |ps'| == 9 && |puzzle| >= 81 && InGrid(x)
    requires FitsClues(ps, puzzle, Idx(x))
    requires puzzle[Idx(x)] == 0 ==> ps' == ps
    requires puzzle[Idx(x)] > 0 ==> Narrowed(ps, ps', x, puzzle[Idx(x)])
    ensures FitsClues(ps', puzzle, Idx(x) + 1)
  {
    var i := Idx(x);
    forall g | IsSolvedGrid(g)
      ensures AgreesBelow(g, puzzle, i + 1) <==> AgreesBelow(g, puzzle, i) && (puzzle[i] > 0 ==> g[i] == puzzle[i])
    {
    }
  }

  /** A clue at `x` that no fitting solved grid shows leaves no solved grid
      that agrees with the puzzle. */
  lemma AgreesRejected(ps: seq<Pattern>, puzzle: seq<nat>, x: Cell)
    requires |ps| == 9 && |puzzle| >= 81 && InGrid(x) && puzzle[Idx(x)] > 0
    requires FitsClues(ps, puzzle, Idx(x)) && Excludes(ps, x, puzzle[Idx(x)])
    ensures forall g :: IsSolvedGrid(g) ==> !Agrees(g, puzzle)
  {
    forall g | IsSolvedGrid(g)
      ensures Agrees(g, puzzle) ==> AgreesBelow(g, puzzle, Idx(x)) && g[Idx(x)] == puzzle[Idx(x)]
    {
    }
  }

  /** Every nonzero clue among the first `k` cells holds in `ps`. */
  ghost predicate CluesHold(ps: seq<Pattern>, puzzle: seq<nat>, k: nat)
    requires |ps| == 9 && |puzzle| >= 81 && k <= 81
  {
    forall i :: 0 <= i < k && puzzle[i] > 0 ==> Clue(ps, (i / 9, i % 9), puzzle[i])
  }

  /** Setting the clue of cell `x` keeps the earlier clues and adds it. */
  lemma CluesStep(ps: seq<Pattern>, ps': seq<Pattern>, puzzle: seq<nat>, x: Cell)
    requires |ps| == 9 && |puzzle| >= 81 && InGrid(x) && Shrinks(ps, ps') && CluesHold(ps, puzzle, Idx(x))
    requires puzzle[Idx(x)] > 0 ==> Only(ps', x, puzzle[Idx(x)] - 1)
    ensures CluesHold(ps', puzzle, Idx(x) + 1)
  {
    IdxFacts();
    forall k | 0 <= k < Idx(x) + 1 && puzzle[k] > 0
      ensures Clue(ps', (k / 9, k % 9), puzzle[k])
    {
      if k < Idx(x) {
        ClueKept(ps, ps', (k / 9, k % 9), puzzle[k]);
      }
    }
  }

  /** Once every clue of `input` holds in a ready machine, each clue is the
      only digit left in its cell. */
  lemma CluesOnly(puzzle: Possibilities, input: seq<seq<nat>>)
    requires |input| == 9 && forall row :: 0 <= row < 9 ==> |input[row]| == 9
    requires puzzle.Ready() && CluesHold(puzzle.Ps(), Flatten(input), 81)
    ensures forall row, col :: 0 <= row < 9 && 0 <= col < 9 && input[row][col] > 0 ==>
      Only(puzzle.Ps(), (row, col), input[row][col] - 1)
  {
    var ps := puzzle.Ps();
    forall row, col | 0 <= row < 9 && 0 <= col < 9 && input[row][col] > 0
      ensures Only(ps, (row, col), input[row][col] - 1)
    {
      var i := 9 * row + col;
      assert i / 9 == row && i % 9 == col;
      assert Flatten(input)[i] == input[row][col];
      assert Clue(ps, (row, col), input[row][col]);
      assert puzzle.cellCounts[row, col] == DigitCount(ps, (row, col));
      ClueOnly(ps, (row, col), input[row][col]);
    }
  }

  /** A recorded solution becomes a solved grid showing the clues. */
  lemma RecordedGrid(s: Solution, entries: seq<Entry>, catalog: seq<Pattern>, ps: seq<Pattern>, puzzle: seq<nat>)
    requires Plan(entries, catalog) && |ps| == 9 && Listed(entries, catalog, ps) && Covers(entries)
    requires Recorded(s, entries, catalog)
    requires |puzzle| >= 81 && CluesHold(ps, puzzle, 81)
    ensures WellFormed(s, catalog) && Complete(s, catalog)
    ensures IsSolvedGrid(ToGrid(s, catalog)) && Agrees(ToGrid(s, catalog), puzzle)
  {
    RecordedSolution(s, entries, catalog, ps);
    ValidSolutionSolved(s, catalog);
    IdxFacts();
    forall i | 0 <= i < 81 && puzzle[i] > 0
      ensures ToGrid(s, catalog)[i] == puzzle[i]
    {
      GridShowsClue(s, catalog, ps, (i / 9, i % 9), puzzle[i]);
    }
  }

  /** The cells where a grid that fits `ps` shows digit `d + 1` are cells
      that `ps` still allows for it. */
  lemma FitsShows(g: seq<nat>, ps: seq<Pattern>, d: nat)
    requires |ps| == 9 && Fits(g, ps) && d < 9
    ensures IsSubset(Shows(g, d + 1), ps[d])
  {
    var p := Shows(g, d + 1);
    SubsetMeaning(p, ps[d]);
    IdxFacts();
    forall i | i in p.bits
      ensures i in ps[d].bits
    {
      var x: Cell := (i / 9, i % 9);
      assert At(p, x);
    }
  }

  /** A solved grid that fits `ps`, read back as a solution, is one that
      `search` may record. */
  lemma GridRecorded(g: seq<nat>, entries: seq<Entry>, catalog: seq<Pattern>, ps: seq<Pattern>)
    requires FullCatalog(catalog) && Plan(entries, catalog) && |ps| == 9 && Listed(entries, catalog, ps)
    requires IsSolvedGrid(g) && Fits(g, ps)
    ensures Recorded(FromGrid(g, catalog), entries, catalog)
  {
    var s := FromGrid(g, catalog);
    forall j | 0 <= j < 9
      ensures s.templates[entries[j].0] in entries[j].1
    {
      var d := entries[j].0;
      FitsShows(g, ps, d);
      assert catalog[s.templates[d].index] == Layout(s, catalog, d);
    }
    forall i, j | 0 <= i < j < 9
      ensures !Intersects(Placed(s.templates, entries, i, catalog), Placed(s.templates, entries, j, catalog))
    {
      assert Placed(s.templates, entries, i, catalog) == Layout(s, catalog, entries[i].0);
      assert Placed(s.templates, entries, j, catalog) == Layout(s, catalog, entries[j].0);
      ShowsApart(g, entries[i].0 + 1, entries[j].0 + 1);
    }
  }

  // ---------------------------------------------------------------------------
  // Entry points

  /** Give cell `x` its clue `v` (nothing to do when `v` is 0): one
      iteration of the clue loops of `prepare` and `solve`.  `clues` is the
      whole puzzle in row-major order, of which `v` is the clue of `x`. */
  method SetClue(p: Possibilities, x: Cell, v: nat, ghost clues: seq<nat>) returns (r: Outcome)
    requires p.Ready() && InGrid(x) && |clues| >= 81 && clues[Idx(x)] == v
    requires CluesHold(p.Ps(), clues, Idx(x)) && FitsClues(p.Ps(), clues, Idx(x))
    modifies p, p.patterns, p.cellCounts, p.rowCounts, p.colCounts, p.boxCounts
    ensures r == Ok ==> p.Ready() && CluesHold(p.Ps(), clues, Idx(x) + 1) && FitsClues(p.Ps(), clues, Idx(x) + 1)
    ensures r == ImpossiblePuzzle ==> forall g :: IsSolvedGrid(g) ==> !Agrees(g, clues)
  {
    ghost var ps := p.Ps();
    r := Ok;
    if v > 0 {
      r := p.Set(x.0, x.1, v);
      if r == ImpossiblePuzzle {
        AgreesRejected(ps, clues, x);
        return;
      }
    }
    CluesStep(ps, p.Ps(), clues, x);
    AgreesStep(ps, p.Ps(), clues, x);
  }

  /** The inner loop of `prepare`: give every cell of row `row` its clue
      from `line`, left to right, and stop at the first contradiction. */
  method SetRow(puzzle: Possibilities, line: seq<nat>, row: nat, ghost clues: seq<nat>) returns (r: Outcome)
    requires |line| == 9 && row < 9 && |clues| >= 81
    requires forall col :: 0 <= col < 9 ==> clues[9 * row + col] == line[col]
    requires puzzle.Ready() && CluesHold(puzzle.Ps(), clues, 9 * row) && FitsClues(puzzle.Ps(), clues, 9 * row)
    modifies puzzle, puzzle.patterns, puzzle.cellCounts, puzzle.rowCounts, puzzle.colCounts, puzzle.boxCounts
    ensures r == Ok ==>
      puzzle.Ready() && CluesHold(puzzle.Ps(), clues, 9 * row + 9) && FitsClues(puzzle.Ps(), clues, 9 * row + 9)
    ensures r == ImpossiblePuzzle ==> forall g :: IsSolvedGrid(g) ==> !Agrees(g, clues)
  {
    r := Ok;
    for col := 0 to 9
      invariant r == Ok && puzzle.Ready()
      invariant CluesHold(puzzle.Ps(), clues, 9 * row + col) && FitsClues(puzzle.Ps(), clues, 9 * row + col)
    {
      r := SetClue(puzzle, (row, col), line[col], clues);
      if r == ImpossiblePuzzle {
        return;
      }
    }
  }

  /** Prepare a puzzle: give every cell with a nonzero clue its digit, in
      row-major order, and stop at the first contradiction.  `input[row][col]`
      is the clue of the cell, 0 for an empty one. */
  method Prepare(input: seq<seq<nat>>) returns (puzzle: Possibilities, r: Outcome)
    requires |input| == 9 && forall row :: 0 <= row < 9 ==> |input[row]| == 9
    ensures r == Ok ==> puzzle.Ready() && CluesHold(puzzle.Ps(), Flatten(input), 81)
    ensures r == Ok ==> forall row, col :: 0 <= row < 9 && 0 <= col < 9 && input[row][col] > 0 ==>
      Only(puzzle.Ps(), (row, col), input[row][col] - 1)
    ensures r == Ok ==>
      forall g :: IsSolvedGrid(g) ==> (Fits(g, puzzle.Ps()) <==> Agrees(g, Flatten(input)))
    ensures r == ImpossiblePuzzle ==> forall g :: IsSolvedGrid(g) ==> !Agrees(g, Flatten(input))
  {
    puzzle := new Possibilities();
    ghost var clues := Flatten(input);
    assert FitsClues(puzzle.Ps(), clues, 0) by {
      FitsFresh();
    }
    for row := 0 to 9
      invariant puzzle.Ready()
      invariant fresh(puzzle.patterns) && fresh(puzzle.cellCounts) && fresh(puzzle.rowCounts)
      invariant fresh(puzzle.colCounts) && fresh(puzzle.boxCounts)
      invariant CluesHold(puzzle.Ps(), clues, 9 * row) && FitsClues(puzzle.Ps(), clues, 9 * row)
    {
      r := SetRow(puzzle, input[row], row, clues);
      if r == ImpossiblePuzzle {
        return;
      }
    }
    r := Ok;
    CluesOnly(puzzle, input);
  }

  /** The first phase of `solve`: give every cell with a nonzero clue its
      digit, in row-major order, and stop at the first contradiction. */
  method ApplyClues(puzzle: seq<nat>) returns (possibilities: Possibilities, r: Outcome)
    requires |puzzle| >= 81
    ensures r == Ok ==> possibilities.Ready() && CluesHold(possibilities.Ps(), puzzle, 81)
    ensures r == Ok ==>
      forall g :: IsSolvedGrid(g) ==> (Fits(g, possibilities.Ps()) <==> Agrees(g, puzzle))
    ensures r == ImpossiblePuzzle ==> forall g :: IsSolvedGrid(g) ==> !Agrees(g, puzzle)
  {
    possibilities := new Possibilities();
    assert FitsClues(possibilities.Ps(), puzzle, 0) by {
      FitsFresh();
    }
    for cell := 0 to 81
      invariant possibilities.Ready()
      invariant fresh(possibilities.patterns) && fresh(possibilities.cellCounts)
      invariant fresh(possibilities.rowCounts) && fresh(possibilities.colCounts)
      invariant fresh(possibilities.boxCounts)
      invariant CluesHold(possibilities.Ps(), puzzle, cell) && FitsClues(possibilities.Ps(), puzzle, cell)
    {
      assert Idx((cell / 9, cell % 9)) == cell;
      r := SetClue(possibilities, (cell / 9, cell % 9), puzzle[cell], puzzle);
      if r == ImpossiblePuzzle {
        return;
      }
    }
    r := Ok;
  }

  /** Pair every digit with the templates that fit its possible cells. */
  method ListTemplates(possibilities: Possibilities, catalog: seq<Pattern>) returns (templates: array<Entry>)
    requires possibilities.Shaped()
    ensures fresh(templates) && templates.Length == 9
    ensures forall d :: 0 <= d < 9 ==> templates[d] == (d, Within(catalog, possibilities.Ps()[d]))
  {
    templates := new Entry[9](_ => (0, []));
    for digit := 0 to 9
      modifies templates
      invariant forall d :: 0 <= d < digit ==> templates[d] == (d, Within(catalog, possibilities.Ps()[d]))
    {
      templates[digit] := (digit, Within(catalog, possibilities.patterns[digit]));
    }
  }

  /** Solve a puzzle given as 81 clues in row-major order (0 for an empty
      cell), stopping once `maxSolutions` solutions are found.  The logic
      phase runs first; the search then tries the digits with the fewest
      remaining templates first.  Each solution is returned as its 81
      digits in row-major order. */
  method Solve(puzzle: seq<nat>, maxSolutions: nat, catalog: seq<Pattern>)
    returns (grids: seq<seq<nat>>, ghost r: Outcome)
    requires |puzzle| >= 81 && IsCatalog(catalog)
    ensures |grids| <= Cap(maxSolutions)
    ensures forall n :: 0 <= n < |grids| ==> IsSolvedGrid(grids[n]) && Agrees(grids[n], puzzle)
    ensures r == ImpossiblePuzzle ==> grids == [] && forall g :: IsSolvedGrid(g) ==> !Agrees(g, puzzle)
    ensures FullCatalog(catalog) && |grids| < maxSolutions ==>
      forall g :: IsSolvedGrid(g) && Agrees(g, puzzle) ==> g in grids
    ensures Distinct(catalog) ==> Distinct(grids)
  {
    var possibilities, outcome := ApplyClues(puzzle);
    r := outcome;
    if outcome == ImpossiblePuzzle {
      return [], r;
    }
    ghost var ps := possibilities.Ps();

    var templates := ListTemplates(possibilities, catalog);
    ghost var listed := templates[..];
    SortByLength(templates);
    SortedPlan(listed, templates[..], catalog, ps);

    var solution := new Template[9](_ => Template(0));
    ghost var blank := solution[..];
    var solutions := Search([], solution, EMPTY, templates[..], 0, maxSolutions, catalog);
    forall n | 0 <= n < |solutions|
      ensures WellFormed(solutions[n], catalog) && Complete(solutions[n], catalog)
      ensures IsSolvedGrid(ToGrid(solutions[n], catalog)) && Agrees(ToGrid(solutions[n], catalog), puzzle)
    {
      RecordedGrid(solutions[n], templates[..], catalog, ps, puzzle);
    }
    grids := seq(|solutions|, n requires 0 <= n < |solutions| => ToGrid(solutions[n], catalog));
    ListedDistinct(templates[..], catalog, ps);
    forall m, n | Distinct(catalog) && 0 <= m < n < |grids|
      ensures grids[m] != grids[n]
    {
      RecordedSolution(solutions[m], templates[..], catalog, ps);
      RecordedSolution(solutions[n], templates[..], catalog, ps);
      GridInjective(solutions[m], solutions[n], catalog);
    }
    forall g | FullCatalog(catalog) && |grids| < maxSolutions && IsSolvedGrid(g) && Agrees(g, puzzle)
      ensures g in grids
    {
      GridRecorded(g, templates[..], catalog, ps);
      var s := FromGrid(g, catalog);
      assert Extends(s.templates, blank, templates[..], 0, catalog);
      assert Solution(s.templates) in solutions[0..];
      var n :| 0 <= n < |solutions| && solutions[n] == s;
      GridSolution(g, catalog);
      assert grids[n] == g;
    }
  }
}
