/** Candidate domains of the propagation pass (ac3): which values a cell keeps,
    and the state the pass reaches. */
module Propagation {
  import opened Grid

  /** Per-cell domains, 9 rows of 9 lists of values. */
  type DomainGrid = seq<seq<seq<int>>>

  ghost predicate IsDomains(d: DomainGrid) {
    |d| == N && forall r | 0 <= r < N :: |d[r]| == N
  }

  ghost predicate Increasing(s: seq<int>) {
    forall i, j | 0 <= i < j < |s| :: s[i] < s[j]
  }

  /** `s.filter(n => n !== x)`. */
  function Without(s: seq<int>, x: int): (t: seq<int>)
  {
    if s == [] then [] else (if s[0] == x then [] else [s[0]]) + Without(s[1..], x)
  }

  /** The values of s that are safe at (r, c), in the order of s. */
  ghost function SafeValues(g: Board, r: int, c: int, s: seq<int>): (t: seq<int>)
    requires IsBoard(g) && InRange(r, c)
  {
    if s == [] then []
    else (if Safe(g, r, c, s[0]) then [s[0]] else []) + SafeValues(g, r, c, s[1..])
  }

  /** The domain an empty cell ends with: the safe values of 1..9, ascending. */
  ghost function Candidates(g: Board, r: int, c: int): seq<int>
    requires IsBoard(g) && InRange(r, c)
  {
    SafeValues(g, r, c, Digits)
  }

  /** What ac3 leaves: every empty cell holds its candidates; the domains of
      filled cells are not touched. */
  ghost function Propagated(g: Board, d: DomainGrid): (e: DomainGrid)
    requires IsBoard(g) && IsDomains(d)
    ensures IsDomains(e)
  {
    seq(N, r requires 0 <= r < N =>
      seq(N, c requires 0 <= c < N => if g[r][c] == 0 then Candidates(g, r, c) else d[r][c]))
  }

  /** Empty cells whose domain is not yet their candidate list. */
  ghost function Unsettled(g: Board, d: DomainGrid): set<Coord>
    requires IsBoard(g) && IsDomains(d)
  {
    set i, j | 0 <= i < N && 0 <= j < N && g[i][j] == 0 && d[i][j] != Candidates(g, i, j) :: (i, j)
  }

  /** The filter keeps exactly the safe values of s. */
  lemma {:induction false} SafeValuesMembers(g: Board, r: int, c: int, s: seq<int>)
    requires IsBoard(g) && InRange(r, c)
    ensures forall y :: y in SafeValues(g, r, c, s) <==> y in s && Safe(g, r, c, y)
  {
    if s != [] {
      SafeValuesMembers(g, r, c, s[1..]);
      assert s == [s[0]] + s[1..];
    }
  }

  /** `filter(n => n !== x)` keeps every value other than x. */
  lemma {:induction false} WithoutMembers(s: seq<int>, x: int)
    ensures forall y :: y in Without(s, x) <==> y in s && y != x
  {
    if s != [] {
      WithoutMembers(s[1..], x);
      assert s == [s[0]] + s[1..];
    }
  }

  lemma {:induction false} SafeValuesAppend(g: Board, r: int, c: int, a: seq<int>, b: seq<int>)
    requires IsBoard(g) && InRange(r, c)
    ensures SafeValues(g, r, c, a + b) == SafeValues(g, r, c, a) + SafeValues(g, r, c, b)
  {
    if a == [] {
      assert a + b == b;
    } else {
      assert (a + b)[0] == a[0];
      assert (a + b)[1..] == a[1..] + b;
      SafeValuesAppend(g, r, c, a[1..], b);
      var head := if Safe(g, r, c, a[0]) then [a[0]] else [];
      calc {
        SafeValues(g, r, c, a + b);
        head + SafeValues(g, r, c, a[1..] + b);
        head + (SafeValues(g, r, c, a[1..]) + SafeValues(g, r, c, b));
        (head + SafeValues(g, r, c, a[1..])) + SafeValues(g, r, c, b);
      }
    }
  }

  lemma {:induction false} WithoutAppend(a: seq<int>, b: seq<int>, x: int)
    ensures Without(a + b, x) == Without(a, x) + Without(b, x)
  {
    if a == [] {
      assert a + b == b;
    } else {
      assert (a + b)[0] == a[0];
      assert (a + b)[1..] == a[1..] + b;
      WithoutAppend(a[1..], b, x);
      var head := if a[0] == x then [] else [a[0]];
      calc {
        Without(a + b, x);
        head + Without(a[1..] + b, x);
        head + (Without(a[1..], x) + Without(b, x));
        (head + Without(a[1..], x)) + Without(b, x);
      }
    }
  }

  lemma {:induction false} WithoutAbsent(s: seq<int>, x: int)
    requires x !in s
    ensures Without(s, x) == s
  {
    if s != [] {
      WithoutAbsent(s[1..], x);
    }
  }

  /** Filtering keeps an ascending list ascending. */
  lemma {:induction false} SafeValuesIncreasing(g: Board, r: int, c: int, s: seq<int>)
    requires IsBoard(g) && InRange(r, c) && Increasing(s)
    ensures Increasing(SafeValues(g, r, c, s))
  {
    if s != [] {
      SafeValuesIncreasing(g, r, c, s[1..]);
      var t := SafeValues(g, r, c, s[1..]);
      SafeValuesMembers(g, r, c, s[1..]);
      forall k | 0 <= k < |t| ensures s[0] < t[k] {
        assert t[k] in t;
        var m :| 0 <= m < |s[1..]| && s[1..][m] == t[k];
        assert s[m + 1] == t[k];
      }
    }
  }

  /** A list whose values are all safe passes the filter unchanged. */
  lemma {:induction false} SafeValuesOfSafe(g: Board, r: int, c: int, s: seq<int>)
    requires IsBoard(g) && InRange(r, c)
    requires forall k | 0 <= k < |s| :: Safe(g, r, c, s[k])
    ensures SafeValues(g, r, c, s) == s
  {
    if s != [] {
      SafeValuesOfSafe(g, r, c, s[1..]);
    }
  }

  /** The fixed point: an empty cell's final domain is exactly the ascending list
      of the values 1..9 that pass the legality check. */
  lemma CandidatesAreSafeDigits(g: Board, r: int, c: int)
    requires IsBoard(g) && InRange(r, c)
    ensures forall v :: v in Candidates(g, r, c) <==> 1 <= v <= 9 && Safe(g, r, c, v)
    ensures Increasing(Candidates(g, r, c))
  {
    DigitsAt();
    SafeValuesMembers(g, r, c, Digits);
    SafeValuesIncreasing(g, r, c, Digits);
  }

  /** Re-examining a settled domain removes nothing. */
  lemma CandidatesStable(g: Board, r: int, c: int)
    requires IsBoard(g) && InRange(r, c)
    ensures SafeValues(g, r, c, Candidates(g, r, c)) == Candidates(g, r, c)
  {
    var cand := Candidates(g, r, c);
    SafeValuesMembers(g, r, c, Digits);
    forall k | 0 <= k < |cand| ensures Safe(g, r, c, cand[k]) {
      assert cand[k] in cand;
    }
    SafeValuesOfSafe(g, r, c, cand);
  }

  /** One iteration of the inner loop of ac3 over the domain d0 it started from:
      the first k values of d0 have been filtered, the rest not yet. A safe d0[k]
      stays. */
  lemma PruneKeep(g: Board, r: int, c: int, d0: seq<int>, k: int)
    requires IsBoard(g) && InRange(r, c) && 0 <= k < |d0| && Safe(g, r, c, d0[k])
    ensures SafeValues(g, r, c, d0[..k + 1]) + d0[k + 1..] == SafeValues(g, r, c, d0[..k]) + d0[k..]
  {
    var x := d0[k];
    assert d0[..k + 1] == d0[..k] + [x];
    SafeValuesAppend(g, r, c, d0[..k], [x]);
    assert SafeValues(g, r, c, [x]) == [x];
    assert d0[k..] == [x] + d0[k + 1..];
  }

  lemma WithoutHead(x: int, rest: seq<int>)
    requires x !in rest
    ensures Without([x] + rest, x) == rest
  {
    assert ([x] + rest)[1..] == rest;
    WithoutAbsent(rest, x);
  }

  /** An unsafe d0[k] is removed, and only that value: d0 is ascending, so it
      occurs once. */
  lemma PruneRemove(g: Board, r: int, c: int, d0: seq<int>, k: int)
    requires IsBoard(g) && InRange(r, c) && Increasing(d0) && 0 <= k < |d0| && !Safe(g, r, c, d0[k])
    ensures SafeValues(g, r, c, d0[..k + 1]) + d0[k + 1..] == Without(SafeValues(g, r, c, d0[..k]) + d0[k..], d0[k])
    ensures |SafeValues(g, r, c, d0[..k + 1]) + d0[k + 1..]| + 1 == |SafeValues(g, r, c, d0[..k]) + d0[k..]|
  {
    var x := d0[k];
    var done := SafeValues(g, r, c, d0[..k]);
    var rest := d0[k + 1..];
    assert d0[..k + 1] == d0[..k] + [x];
    SafeValuesAppend(g, r, c, d0[..k], [x]);
    assert SafeValues(g, r, c, [x]) == [];
    assert d0[k..] == [x] + rest;
    assert x !in rest by {
      forall m | 0 <= m < |rest| ensures rest[m] != x {
        assert rest[m] == d0[k + 1 + m];
      }
    }
    SafeValuesMembers(g, r, c, d0[..k]);
    assert x !in done;
    calc {
      Without(done + d0[k..], x);
      { WithoutAppend(done, d0[k..], x); }
      Without(done, x) + Without([x] + rest, x);
      { WithoutAbsent(done, x); WithoutHead(x, rest); }
      done + rest;
      { assert done + [] == done; }
      SafeValues(g, r, c, d0[..k + 1]) + rest;
    }
  }

  /** Two domain grids that agree on every cell are equal. */
  lemma DomainsExt(a: DomainGrid, b: DomainGrid)
    requires IsDomains(a) && IsDomains(b)
    requires forall i, j | 0 <= i < N && 0 <= j < N :: a[i][j] == b[i][j]
    ensures a == b
  {
    forall i | 0 <= i < N ensures a[i] == b[i] {
      assert forall j | 0 <= j < N :: a[i][j] == b[i][j];
    }
  }

  /** Settling one unsettled cell, and changing nothing else, shrinks the set of
      unsettled cells: the measure of the ac3 work loop. */
  lemma SettleOne(g: Board, d: DomainGrid, e: DomainGrid, r: int, c: int)
    requires IsBoard(g) && IsDomains(d) && IsDomains(e) && InRange(r, c) && g[r][c] == 0
    requires d[r][c] != Candidates(g, r, c) && e[r][c] == Candidates(g, r, c)
    requires forall i, j | 0 <= i < N && 0 <= j < N && (i != r || j != c) :: e[i][j] == d[i][j]
    ensures Unsettled(g, e) < Unsettled(g, d)
  {
    assert (r, c) in Unsettled(g, d);
    assert (r, c) !in Unsettled(g, e);
    forall p | p in Unsettled(g, e) ensures p in Unsettled(g, d) {
      var i, j :| InRange(i, j) && g[i][j] == 0 && e[i][j] != Candidates(g, i, j) && p == (i, j);
    }
  }

  /** A queue extended by at most the one cell keeps its old entries as a prefix
      and holds only that cell after them. */
  lemma RequeueOnce(queue: seq<Coord>, next: seq<Coord>, cell: Coord, push: bool)
    requires next == queue + (if push then [cell] else [])
    ensures |queue| <= |next| && next[..|queue|] == queue
    ensures forall m | |queue| <= m < |next| :: next[m] == cell
  {
  }

  /** The invariant of the ac3 work loop over the board g, the domains d the pass
      started from, the current domains e and the queue: queued cells are empty;
      filled cells keep their domains; an empty cell's domain is ascending and
      filters to its candidates; an empty cell that is not queued is settled. */
  ghost predicate WorkInvariant(g: Board, d: DomainGrid, e: DomainGrid, queue: seq<Coord>)
    requires IsBoard(g) && IsDomains(d) && IsDomains(e)
  {
    (forall k | 0 <= k < |queue| :: InRange(queue[k].0, queue[k].1) && g[queue[k].0][queue[k].1] == 0) &&
    (forall i, j | 0 <= i < N && 0 <= j < N && g[i][j] != 0 :: e[i][j] == d[i][j]) &&
    (forall i, j | 0 <= i < N && 0 <= j < N && g[i][j] == 0 ::
      Increasing(e[i][j]) && SafeValues(g, i, j, e[i][j]) == Candidates(g, i, j)) &&
    (forall i, j | 0 <= i < N && 0 <= j < N && g[i][j] == 0 && (i, j) !in queue :: e[i][j] == Candidates(g, i, j))
  }

  /** Right after initialisation (every empty cell holds 1..9 and is queued)
      the work-loop invariant holds. */
  lemma WorkInvariantInit(g: Board, d: DomainGrid, e: DomainGrid, queue: seq<Coord>)
    requires IsBoard(g) && IsDomains(d) && IsDomains(e)
    requires forall i, j | 0 <= i < N && 0 <= j < N :: e[i][j] == (if g[i][j] == 0 then Digits else d[i][j])
    requires forall k | 0 <= k < |queue| :: InRange(queue[k].0, queue[k].1) && g[queue[k].0][queue[k].1] == 0
    requires forall i, j | 0 <= i < N && 0 <= j < N && g[i][j] == 0 :: (i, j) in queue
    ensures WorkInvariant(g, d, e, queue)
  {
    DigitsAt();
  }

  /** One turn of the work loop: the head cell (r, c) of q0 is revised and the
      queue becomes q. The invariant is kept, and either one more cell is settled
      or nothing changed and the queue got shorter. */
  lemma WorkStep(g: Board, d: DomainGrid, e: DomainGrid, e': DomainGrid, q0: seq<Coord>, q: seq<Coord>, push: bool)
    requires IsBoard(g) && IsDomains(d) && IsDomains(e) && IsDomains(e')
    requires WorkInvariant(g, d, e, q0) && |q0| > 0
    requires e'[q0[0].0][q0[0].1] == SafeValues(g, q0[0].0, q0[0].1, e[q0[0].0][q0[0].1])
    requires forall i, j | 0 <= i < N && 0 <= j < N && (i, j) != q0[0] :: e'[i][j] == e[i][j]
    requires q == q0[1..] + (if push then [q0[0]] else [])
    requires e[q0[0].0][q0[0].1] == Candidates(g, q0[0].0, q0[0].1) ==> q == q0[1..]
    ensures WorkInvariant(g, d, e', q)
    ensures Unsettled(g, e') < Unsettled(g, e) || (Unsettled(g, e') == Unsettled(g, e) && |q| < |q0|)
  {
    RequeueOnce(q0[1..], q, q0[0], push);
    var (r, c) := q0[0];
    var rest := q0[1..];
    assert e'[r][c] == Candidates(g, r, c);
    forall k | 0 <= k < |q|
      ensures InRange(q[k].0, q[k].1) && g[q[k].0][q[k].1] == 0
    {
      if k < |rest| {
        assert q[k] == q[..|rest|][k];
      }
    }
    forall i, j | 0 <= i < N && 0 <= j < N && g[i][j] == 0 && (i, j) !in q
      ensures e'[i][j] == Candidates(g, i, j)
    {
      if (i, j) != (r, c) {
        assert (i, j) !in rest by {
          assert forall m | 0 <= m < |rest| :: q[m] == rest[m] by {
            forall m | 0 <= m < |rest| ensures q[m] == rest[m] {
              assert q[..|rest|][m] == q[m];
            }
          }
        }
        assert (i, j) !in q0 by {
          assert forall m | 1 <= m < |q0| :: q0[m] == rest[m - 1];
        }
      }
    }
    assert Increasing(e'[r][c]) && SafeValues(g, r, c, e'[r][c]) == Candidates(g, r, c) by {
      CandidatesAreSafeDigits(g, r, c);
      CandidatesStable(g, r, c);
    }
    if e[r][c] == Candidates(g, r, c) {
      DomainsExt(e', e);
    } else {
      SettleOne(g, e, e', r, c);
    }
  }

  /** When the queue is empty the pass has reached its result. */
  lemma WorkDone(g: Board, d: DomainGrid, e: DomainGrid)
    requires IsBoard(g) && IsDomains(d) && IsDomains(e) && WorkInvariant(g, d, e, [])
    ensures e == Propagated(g, d)
  {
    DomainsExt(e, Propagated(g, d));
  }

  /** After the pass, the domain of an empty cell holds exactly the digits that
      may go there; in particular a digit placed in a cell it sees is gone. */
  lemma PropagatedDomains(g: Board, d: DomainGrid, i: int, j: int)
    requires IsBoard(g) && IsDomains(d) && InRange(i, j) && g[i][j] == 0
    ensures forall v :: v in Propagated(g, d)[i][j] <==> 1 <= v <= 9 && Safe(g, i, j, v)
    ensures forall r, c | 0 <= r < N && 0 <= c < N && Sees(i, j, r, c) :: g[r][c] !in Propagated(g, d)[i][j]
  {
    var dom := Propagated(g, d)[i][j];
    assert dom == Candidates(g, i, j);
    CandidatesAreSafeDigits(g, i, j);
    forall r, c | 0 <= r < N && 0 <= c < N && Sees(i, j, r, c) ensures g[r][c] !in dom {
      assert !Safe(g, i, j, g[r][c]);
    }
  }

  /** Propagating twice over the same board gives the same domains as once. */
  lemma PropagatedIdempotent(g: Board, d: DomainGrid)
    requires IsBoard(g) && IsDomains(d)
    ensures Propagated(g, Propagated(g, d)) == Propagated(g, d)
  {
    var e := Propagated(g, d);
    forall r | 0 <= r < N ensures Propagated(g, e)[r] == e[r] {
    }
  }
}
