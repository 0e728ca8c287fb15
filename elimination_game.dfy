/** The elimination game of myfirstclass.cpp: `n` people stand in a circle,
    held in a fixed array whose cells are 0 (alive) or 1 (eliminated). A walk
    goes round the circle counting live people; every `m`-th one is
    eliminated, until one is left, whose 1-based position is printed.

    The simulation is modelled as it is written, on an array updated in
    place. Its loop is proved against an abstract game (`Survivor`) played on
    the list of live positions, and that game is proved equal to the
    Josephus recurrence (`Josephus`). */
module EliminationGame {

  /** Capacity of the fixed array (`max_size`). */
  const MaxSize: int := 1000

  /** The inputs the program refuses with exit code 1. */
  predicate Rejected(n: int, m: int) {
    n < m || m < 2 || n > MaxSize
  }

  /** The positions 0, 1, ..., n-1. */
  function Range(n: nat): (r: seq<nat>)
    ensures |r| == n && forall k :: 0 <= k < n ==> r[k] == k
  {
    seq(n, k => k)
  }

  /** The sequence `s` without its element at index `r`. */
  function Remove(s: seq<nat>, r: nat): (t: seq<nat>)
    requires r < |s|
    ensures |t| == |s| - 1
    ensures forall k :: 0 <= k < |t| ==> t[k] == if k < r then s[k] else s[k + 1]
  {
    s[..r] + s[r + 1..]
  }

  /** Removing from the front part of a sequence leaves the back alone. */
  lemma RemoveAppend(s: seq<nat>, r: nat, tail: seq<nat>)
    requires r < |s|
    ensures Remove(s + tail, r) == Remove(s, r) + tail
  {
    assert (s + tail)[..r] == s[..r];
    assert (s + tail)[r + 1..] == s[r + 1..] + tail;
  }

  // ---------------------------------------------------------------------------
  // The live cells of the array
  // ---------------------------------------------------------------------------

  /** The indices of the live (zero) cells of `cells`, in increasing order. */
  function Alive(cells: seq<int>): (r: seq<nat>)
    ensures |r| <= |cells|
    ensures forall k :: 0 <= k < |r| ==> r[k] < |cells| && cells[r[k]] == 0
    decreases |cells|
  {
    if cells == [] then []
    else
      var init := cells[..|cells| - 1];
      Alive(init) + (if cells[|cells| - 1] == 0 then [|cells| - 1] else [])
  }

  /** The live cells are listed in increasing order, so each one once. */
  lemma {:induction false} AliveIncreasing(cells: seq<int>, k: nat, l: nat)
    requires k < l < |Alive(cells)|
    ensures Alive(cells)[k] < Alive(cells)[l]
    decreases |cells|
  {
    var init := cells[..|cells| - 1];
    if l < |Alive(init)| {
      AliveIncreasing(init, k, l);
    }
  }

  /** Every live cell is listed by `Alive`: together with the ensures of
      `Alive`, a cell is in the list exactly when it is zero. */
  lemma {:induction false} AliveComplete(cells: seq<int>, j: nat)
    requires j < |cells| && cells[j] == 0
    ensures j in Alive(cells)
    decreases |cells|
  {
    var init := cells[..|cells| - 1];
    if j < |cells| - 1 {
      AliveComplete(init, j);
    }
  }

  /** A row of live cells lists every position. */
  lemma {:induction false} AliveOfZeros(cells: seq<int>)
    requires forall j :: 0 <= j < |cells| ==> cells[j] == 0
    ensures Alive(cells) == Range(|cells|)
    decreases |cells|
  {
    if cells != [] {
      AliveOfZeros(cells[..|cells| - 1]);
    }
  }

  /** Extending a prefix by one cell adds one live cell exactly when that
      cell is zero. */
  lemma AlivePrefixStep(cells: seq<int>, i: nat)
    requires i < |cells|
    ensures |Alive(cells[..i + 1])| == |Alive(cells[..i])| + if cells[i] == 0 then 1 else 0
  {
    assert cells[..i + 1][..i] == cells[..i];
  }

  /** A live cell `i` is the live cell whose rank is the number of live cells
      before it. */
  lemma {:induction false} AliveRank(cells: seq<int>, i: nat)
    requires i < |cells| && cells[i] == 0
    ensures |Alive(cells[..i])| < |Alive(cells)|
    ensures Alive(cells)[|Alive(cells[..i])|] == i
    decreases |cells|
  {
    var last := |cells| - 1;
    var init := cells[..last];
    if i < last {
      assert init[..i] == cells[..i];
      AliveRank(init, i);
    } else {
      assert init == cells[..i];
    }
  }

  /** Marking the live cell `i` removes it from the list of live cells. */
  lemma {:induction false} AliveMark(cells: seq<int>, i: nat)
    requires i < |cells| && cells[i] == 0
    ensures |Alive(cells[..i])| < |Alive(cells)|
    ensures Alive(cells[i := 1]) == Remove(Alive(cells), |Alive(cells[..i])|)
    decreases |cells|
  {
    var last := |cells| - 1;
    var init := cells[..last];
    var marked := cells[i := 1];
    var p := |Alive(cells[..i])|;
    AliveRank(cells, i);
    if i == last {
      assert marked[..last] == init;
      assert init == cells[..i];
    } else {
      assert marked[..last] == init[i := 1];
      assert init[..i] == cells[..i];
      var tail := if cells[last] == 0 then [last] else [];
      assert Alive(marked) == Remove(Alive(init), p) + tail by {
        AliveMark(init, i);
      }
      assert Alive(cells) == Alive(init) + tail;
      RemoveAppend(Alive(init), p, tail);
    }
  }

  // ---------------------------------------------------------------------------
  // Distance of the walk to the next live cell
  // ---------------------------------------------------------------------------

  /** The first live cell at or after `i`. */
  function FirstAliveFrom(cells: seq<int>, i: nat): (j: nat)
    requires i <= |cells| && 0 in cells[i..]
    ensures i <= j < |cells| && cells[j] == 0
    ensures forall l :: i <= l < j ==> cells[l] != 0
    decreases |cells| - i
  {
    assert cells[i..][0] == cells[i];
    if cells[i] == 0 then i
    else
      assert cells[i..] == [cells[i]] + cells[i + 1..];
      FirstAliveFrom(cells, i + 1)
  }

  /** The number of steps the walk takes from `i`, wrapping round, to reach a
      live cell: fewer than one round. */
  function Gap(cells: seq<int>, i: nat): (g: nat)
    requires i < |cells| && 0 in cells
    ensures g < |cells|
  {
    assert cells[0..] == cells;
    if 0 in cells[i..] then FirstAliveFrom(cells, i) - i
    else
      var j := FirstAliveFrom(cells, 0);
      assert j < i;
      |cells| - i + j
  }

  /** A step over an eliminated cell brings the walk one step closer to the
      next live cell. */
  lemma GapStep(cells: seq<int>, i: nat)
    requires i < |cells| && 0 in cells && cells[i] != 0
    ensures Gap(cells, if i + 1 == |cells| then 0 else i + 1) + 1 == Gap(cells, i)
  {
    var n := |cells|;
    assert cells[0..] == cells;
    assert cells[i..] == [cells[i]] + cells[i + 1..];
    if i + 1 == n {
      assert cells[i..] == [cells[i]];
    }
  }

  // ---------------------------------------------------------------------------
  // The game on the list of live positions, and the Josephus recurrence
  // ---------------------------------------------------------------------------

  /** The place reached by moving `d` places on round a circle of `k`
      places, from place `p`: (p + d) mod k, as `AdvanceIsMod` shows. */
  function Advance(p: nat, d: nat, k: nat): (r: nat)
    requires p < k
    ensures r < k
    decreases d
  {
    if p + d < k then p + d else Advance(0, p + d - k, k)
  }

  /** The Josephus recurrence: J(1) = 0 and J(k) = (J(k-1) + m) mod k
      (`JosephusRecurrence`), the 0-based survivor of k people when every
      m-th is eliminated. */
  function Josephus(k: nat, m: nat): (j: nat)
    requires k >= 1
    ensures j < k
  {
    if k == 1 then 0 else Advance(Josephus(k - 1, m), m, k)
  }

  /** The index in the circle of `k` live people of the live person reached
      after passing `p` of them: past the last one, the walk is back at the
      first. */
  function CircleIndex(p: nat, k: nat): (c: nat)
    requires p <= k
    ensures c < k || k == 0
  {
    if p == k then 0 else p
  }

  /** The survivor of the game played on the live positions `alive`, in circle
      order, when counting resumes at `alive[start]` with `counted` people
      already counted since the last elimination. */
  function Survivor(alive: seq<nat>, start: nat, counted: nat, m: nat): (w: nat)
    requires 0 < |alive| && start < |alive| && counted < m
    ensures w in alive
    decreases |alive|
  {
    if |alive| == 1 then alive[0]
    else
      var r := Advance(start, m - 1 - counted, |alive|);
      var rest := Remove(alive, r);
      var w := Survivor(rest, CircleIndex(r, |rest|), 0, m);
      assert w in alive by {
        var k :| 0 <= k < |rest| && rest[k] == w;
        if k < r { assert alive[k] == w; } else { assert alive[k + 1] == w; }
      }
      w
  }

  lemma MulAtLeast(a: int, k: int)
    requires a >= 1 && k > 0
    ensures a * k >= k
  {
  }

  /** The remainder of x by k is the r of any x == q * k + r with 0 <= r < k. */
  lemma ModUnique(x: int, k: int, q: int, r: int)
    requires k > 0 && 0 <= r < k && x == q * k + r
    ensures x % k == r
  {
    var q0, r0 := x / k, x % k;
    assert x == q0 * k + r0;
    assert (q - q0) * k == r0 - r;
    if q > q0 { MulAtLeast(q - q0, k); }
    if q < q0 { MulAtLeast(q0 - q, k); }
  }

  lemma ModSmall(x: nat, k: nat)
    requires k > 0 && x < 2 * k
    ensures x % k == if x < k then x else x - k
  {
    if x < k { ModUnique(x, k, 0, x); } else { ModUnique(x, k, 1, x - k); }
  }

  lemma {:induction false} AdvanceIsMod(p: nat, d: nat, k: nat)
    requires p < k
    ensures Advance(p, d, k) == (p + d) % k
    decreases d
  {
    if p + d < k {
      ModUnique(p + d, k, 0, p + d);
    } else {
      var x := p + d - k;
      AdvanceIsMod(0, x, k);
      ModUnique(x, k, x / k, x % k);
      ModUnique(p + d, k, x / k + 1, x % k);
    }
  }

  lemma JosephusRecurrence(k: nat, m: nat)
    requires k >= 2
    ensures Josephus(k, m) == (Josephus(k - 1, m) + m) % k
  {
    AdvanceIsMod(Josephus(k - 1, m), m, k);
  }

  /** Counting one more live person and moving on to the next one does not
      change who survives. */
  lemma SurvivorResume(alive: seq<nat>, p: nat, c: nat, m: nat)
    requires p < |alive| && c + 1 < m
    ensures Survivor(alive, p, c, m) == Survivor(alive, CircleIndex(p + 1, |alive|), c + 1, m)
  {
    var k := |alive|;
    if k > 1 {
      assert Advance(p, m - 1 - c, k) == Advance(CircleIndex(p + 1, k), m - 1 - (c + 1), k);
    }
  }

  /** Counting the m-th live person eliminates them, and the count starts
      again from the person after them. */
  lemma SurvivorEliminate(alive: seq<nat>, p: nat, c: nat, m: nat)
    requires 1 < |alive| && p < |alive| && c + 1 == m
    ensures Survivor(alive, p, c, m) == Survivor(Remove(alive, p), CircleIndex(p, |alive| - 1), 0, m)
  {
    assert Advance(p, 0, |alive|) == p;
  }

  /** Moving x places and then y places is moving x + y places. */
  lemma {:induction false} AdvanceAdd(p: nat, x: nat, y: nat, k: nat)
    requires p < k
    ensures Advance(Advance(p, x, k), y, k) == Advance(p, x + y, k)
    decreases x
  {
    if p + x >= k {
      AdvanceAdd(0, p + x - k, y, k);
    }
  }

  /** Only the distance modulo the circle matters. */
  lemma {:induction false} AdvanceReduce(p: nat, d: nat, k: nat)
    requires p < k
    ensures Advance(p, Advance(0, d, k), k) == Advance(p, d, k)
    decreases d
  {
    if d >= k {
      AdvanceReduce(p, d - k, k);
      AdvanceAdd(0, p, d - k, k);
    }
  }

  /** Counting the winner's offset from `start` is counting one place past
      the smaller game's offset from the first eliminated index. */
  lemma JosephusFromFirst(start: nat, m: nat, k: nat)
    requires 2 <= k && start < k && 1 <= m
    ensures Advance(start, Josephus(k, m), k)
         == Advance(Advance(start, m - 1, k), Josephus(k - 1, m) + 1, k)
  {
    var j := Josephus(k - 1, m);
    assert Josephus(k, m) == Advance(j, m, k);
    assert Advance(j, m, k) == Advance(0, j + m, k) by {
      assert Advance(0, j, k) == j;
      AdvanceAdd(0, j, m, k);
    }
    AdvanceReduce(start, j + m, k);
    AdvanceAdd(start, m - 1, j + 1, k);
  }

  /** The index arithmetic of one round of the recurrence: with r the index
      eliminated first among k players and t the index, among the k - 1 that
      remain, of the smaller game's winner, the index the recurrence names is
      t shifted back over r. */
  lemma ShiftArith(start: nat, m: nat, k: nat)
    requires 2 <= k && start < k && 1 <= m
    ensures var r := Advance(start, m - 1, k);
            var t := Advance(CircleIndex(r, k - 1), Josephus(k - 1, m), k - 1);
            Advance(start, Josephus(k, m), k) == if t < r then t else t + 1
  {
    var j := Josephus(k - 1, m);
    var r := Advance(start, m - 1, k);
    JosephusFromFirst(start, m, k);
    if r == k - 1 {
      assert Advance(0, j, k - 1) == j;
      assert Advance(r, j + 1, k) == Advance(0, j, k) == j;
    } else if r + j < k - 1 {
      assert Advance(r, j, k - 1) == r + j;
      assert Advance(r, j + 1, k) == r + j + 1;
    } else {
      assert Advance(r, j, k - 1) == Advance(0, r + j - (k - 1), k - 1) == r + j - (k - 1);
      assert Advance(r, j + 1, k) == Advance(0, r + j + 1 - k, k) == r + j + 1 - k;
    }
  }

  /** The game started at `alive[start]` with nobody counted is won by the
      player the Josephus recurrence names, counted on from `start`. */
  lemma {:induction false} SurvivorIsJosephus(alive: seq<nat>, start: nat, m: nat)
    requires 0 < |alive| && start < |alive| && m >= 1
    ensures Survivor(alive, start, 0, m) == alive[Advance(start, Josephus(|alive|, m), |alive|)]
    decreases |alive|
  {
    var k := |alive|;
    if k > 1 {
      var r := Advance(start, m - 1, k);
      var rest := Remove(alive, r);
      var s := CircleIndex(r, k - 1);
      var t := Advance(s, Josephus(k - 1, m), k - 1);
      assert Survivor(alive, start, 0, m) == rest[t] by {
        assert Survivor(alive, start, 0, m) == Survivor(rest, s, 0, m);
        SurvivorIsJosephus(rest, s, m);
      }
      assert Advance(start, Josephus(k, m), k) == if t < r then t else t + 1 by {
        ShiftArith(start, m, k);
      }
    } else {
      assert Josephus(k, m) == 0 && start == 0;
    }
  }

  /** The winner of the whole game of `n` people, started at position 0, is
      position Josephus(n, m). */
  lemma GameWinner(n: nat, m: nat)
    requires 1 <= n && 1 <= m
    ensures Survivor(Range(n), 0, 0, m) == Josephus(n, m)
  {
    SurvivorIsJosephus(Range(n), 0, m);
  }

  // ---------------------------------------------------------------------------
  // One step of the walk
  // ---------------------------------------------------------------------------

  /** The index after `i` on a circle of `n` cells. */
  function Next(i: nat, n: nat): (j: nat)
    requires i < n
    ensures j < n
  {
    if i + 1 == n then 0 else i + 1
  }

  lemma NextIsMod(i: nat, n: nat)
    requires i < n
    ensures (i + 1) % n == Next(i, n)
  {
    ModSmall(i + 1, n);
  }

  /** The state of the elimination loop at its head: the walk is at cell `i`,
      `count` live people have been counted since the last elimination and
      `remaining` is the number of live cells. */
  ghost predicate Walk(cells: seq<int>, i: nat, count: nat, remaining: nat, m: nat)
  {
    && i < |cells| && count < m
    && 1 <= remaining <= |cells|
    && remaining == |Alive(cells)|
    && (forall j :: 0 <= j < |cells| ==> cells[j] == 0 || cells[j] == 1)
    && 0 in cells
    && |Alive(cells[..i])| <= remaining
  }

  /** The winner of the abstract game resumed from a state of the loop: the
      live cells are the players, and the count goes on from the first live
      cell at or after `i`. The winner is one of the live cells. */
  ghost function Pending(cells: seq<int>, i: nat, count: nat, remaining: nat, m: nat): (w: nat)
    requires Walk(cells, i, count, remaining, m)
    ensures w in Alive(cells)
  {
    Survivor(Alive(cells), CircleIndex(|Alive(cells[..i])|, remaining), count, m)
  }

  /** The loop starts on a circle of live cells, at cell 0 with nobody
      counted: the game it resumes is the whole game. */
  lemma WalkStart(cells: seq<int>, m: nat)
    requires 2 <= m <= |cells|
    requires forall j :: 0 <= j < |cells| ==> cells[j] == 0
    ensures Walk(cells, 0, 0, |cells|, m)
    ensures Pending(cells, 0, 0, |cells|, m) == Survivor(Range(|cells|), 0, 0, m)
  {
    AliveOfZeros(cells);
    assert cells[..0] == [];
    assert cells[0] == 0;
  }

  /** When one live cell is left, it is the winner. */
  lemma WalkEnd(cells: seq<int>, i: nat, count: nat, m: nat)
    requires Walk(cells, i, count, 1, m)
    ensures Alive(cells) == [Pending(cells, i, count, 1, m)]
  {
  }

  /** Passing an eliminated cell keeps the state and brings the walk closer
      to the next live cell. */
  lemma SkipMarked(cells: seq<int>, i: nat, ni: nat, count: nat, remaining: nat, m: nat)
    requires Walk(cells, i, count, remaining, m) && cells[i] != 0
    requires ni == Next(i, |cells|)
    ensures Walk(cells, ni, count, remaining, m)
    ensures Pending(cells, ni, count, remaining, m) == Pending(cells, i, count, remaining, m)
    ensures Gap(cells, ni) < Gap(cells, i)
  {
    var n := |cells|;
    AlivePrefixStep(cells, i);
    if i + 1 == n {
      assert cells[..i + 1] == cells;
    }
    GapStep(cells, i);
  }

  /** Counting a live cell that is not the m-th keeps the winner. */
  lemma CountLive(cells: seq<int>, i: nat, ni: nat, count: nat, remaining: nat, m: nat)
    requires Walk(cells, i, count, remaining, m) && cells[i] == 0 && count + 1 < m
    requires ni == Next(i, |cells|)
    ensures Walk(cells, ni, count + 1, remaining, m)
    ensures Pending(cells, ni, count + 1, remaining, m) == Pending(cells, i, count, remaining, m)
  {
    var n := |cells|;
    var k := remaining;
    var p := |Alive(cells[..i])|;
    var p' := |Alive(cells[..ni])|;
    assert p < k && p' == (if ni == 0 then 0 else p + 1) && (ni == 0 ==> p == k - 1) by {
      AlivePrefixStep(cells, i);
      if i + 1 == n {
        assert cells[..i + 1] == cells;
      }
      AliveRank(cells, i);
    }
    assert CircleIndex(p', k) == CircleIndex(p + 1, k);
    assert Survivor(Alive(cells), p, count, m) == Survivor(Alive(cells), CircleIndex(p + 1, k), count + 1, m) by {
      SurvivorResume(Alive(cells), p, count, m);
    }
  }

  /** Marking the live cell `i` on the array: the list of live cells loses
      the one of rank p, and the walk's next cell has rank p again (or 0 after
      wrapping round). */
  lemma MarkCells(cells: seq<int>, i: nat, remaining: nat)
    requires i < |cells| && cells[i] == 0 && 1 < remaining == |Alive(cells)|
    requires forall j :: 0 <= j < |cells| ==> cells[j] == 0 || cells[j] == 1
    ensures var marked := cells[i := 1];
            var p := |Alive(cells[..i])|;
            var ni := Next(i, |cells|);
            && p < remaining
            && (ni == 0 ==> p == remaining - 1)
            && |Alive(marked[..ni])| == (if ni == 0 then 0 else p)
            && Alive(marked) == Remove(Alive(cells), p)
            && (forall j :: 0 <= j < |marked| ==> marked[j] == 0 || marked[j] == 1)
            && 0 in marked
  {
    var n := |cells|;
    var ni := Next(i, n);
    var marked := cells[i := 1];
    var p := |Alive(cells[..i])|;
    assert p < remaining && (ni == 0 ==> p == remaining - 1) by {
      AlivePrefixStep(cells, i);
      if i + 1 == n {
        assert cells[..i + 1] == cells;
      }
      AliveRank(cells, i);
    }
    assert |Alive(marked[..ni])| == if ni == 0 then 0 else p by {
      assert marked[..i] == cells[..i];
      AlivePrefixStep(marked, i);
      if i + 1 < n {
        assert marked[..ni] == marked[..i + 1];
      }
    }
    assert Alive(marked) == Remove(Alive(cells), p) by {
      AliveMark(cells, i);
    }
    assert marked[Alive(marked)[0]] == 0;
  }

  /** Marking the m-th live cell eliminates, in the abstract game, the player
      it names, and keeps the winner. */
  lemma MarkLive(cells: seq<int>, marked: seq<int>, i: nat, ni: nat, count: nat, remaining: nat, m: nat)
    requires Walk(cells, i, count, remaining, m) && cells[i] == 0 && count + 1 == m
    requires remaining > 1 && marked == cells[i := 1] && ni == Next(i, |cells|)
    ensures Walk(marked, ni, 0, remaining - 1, m)
    ensures Pending(marked, ni, 0, remaining - 1, m) == Pending(cells, i, count, remaining, m)
  {
    var k := remaining;
    var p := |Alive(cells[..i])|;
    var p' := |Alive(marked[..ni])|;
    MarkCells(cells, i, remaining);
    assert CircleIndex(p', k - 1) == CircleIndex(p, k - 1);
    SurvivorEliminate(Alive(cells), p, count, m);
  }

  // ---------------------------------------------------------------------------
  // The program
  // ---------------------------------------------------------------------------

  /** From `before` to `after`, cells only changed from 0 to 1, and only
      below `n`. */
  ghost predicate OnlyMarked(before: seq<int>, after: seq<int>, n: int)
  {
    |before| == |after| &&
    forall j :: 0 <= j < |after| && after[j] != before[j] ==> j < n && before[j] == 0 && after[j] == 1
  }

  /** The initialisation loop: every cell `a[0..n)` is set alive, the cells
      beyond are untouched. */
  method Initialise(a: array<int>, n: int)
    requires 0 <= n <= a.Length
    modifies a
    ensures forall j :: 0 <= j < n ==> a[j] == 0
    ensures forall j :: n <= j < a.Length ==> a[j] == old(a[j])
  {
    for i := 0 to n
      invariant forall j :: 0 <= j < i ==> a[j] == 0
      invariant forall j :: n <= j < a.Length ==> a[j] == old(a[j])
    {
      a[i] := 0;
    }
  }

  /** Composing two runs that only mark cells below `n` only marks cells
      below `n`. */
  lemma OnlyMarkedTrans(s0: seq<int>, s1: seq<int>, s2: seq<int>, n: int)
    requires OnlyMarked(s0, s1, n) && OnlyMarked(s1, s2, n)
    ensures OnlyMarked(s0, s2, n)
  {
    forall j | 0 <= j < |s2| && s2[j] != s0[j]
      ensures j < n && s0[j] == 0 && s2[j] == 1
    {
    }
  }

  /** One pass of the loop body, at cell `i`: a live cell is counted, and
      the m-th is eliminated (its cell set to 1, the count reset, one fewer
      remaining); then the walk moves on to (i + 1) % n. The state stays a
      state of the walk, the abstract game it resumes keeps its winner, and
      the loop's measure goes down. */
  method Step(a: array<int>, n: nat, m: nat, i: nat, count: nat, remaining: nat)
    returns (i': nat, count': nat, remaining': nat)
    requires n <= a.Length && 1 < remaining
    requires Walk(a[..n], i, count, remaining, m)
    modifies a
    ensures Walk(a[..n], i', count', remaining', m)
    ensures Pending(a[..n], i', count', remaining', m) == old(Pending(a[..n], i, count, remaining, m))
    ensures OnlyMarked(old(a[..]), a[..], n)
    ensures i' == (i + 1) % n
    ensures old(a[i]) == 0 && count + 1 == m ==>
              a[..] == old(a[..])[i := 1] && count' == 0 && remaining' == remaining - 1
    ensures !(old(a[i]) == 0 && count + 1 == m) ==>
              && a[..] == old(a[..]) && remaining' == remaining
              && count' == count + (if old(a[i]) == 0 then 1 else 0)
    ensures || remaining' < remaining
            || (remaining' == remaining && count' == count + 1)
            || (remaining' == remaining && count' == count && Gap(a[..n], i') < old(Gap(a[..n], i)))
  {
    ghost var cells := a[..n];
    ghost var ni := (i + 1) % n;
    NextIsMod(i, n);
    i', count', remaining' := i, count, remaining;
    if a[i'] == 0 {
      count' := count' + 1;
      if count' == m {
        MarkLive(cells, cells[i := 1], i, ni, count, remaining, m);
        a[i'] := 1;
        count' := 0;
        remaining' := remaining' - 1;
        assert a[..n] == cells[i := 1];
      } else {
        CountLive(cells, i, ni, count, remaining, m);
      }
    } else {
      SkipMarked(cells, i, ni, count, remaining, m);
    }
    i' := (i' + 1) % n;
  }

  /** The elimination loop, from a circle of `n` live cells. When it stops,
      the only live cell in `a[0..n)` is the winner of the abstract game;
      cells only ever change from 0 to 1, and only below `n`. */
  method Eliminate(a: array<int>, n: int, m: int)
    requires 2 <= m <= n <= a.Length
    requires forall j :: 0 <= j < n ==> a[j] == 0
    modifies a
    ensures Alive(a[..n]) == [Josephus(n, m)]
    ensures OnlyMarked(old(a[..]), a[..], n)
  {
    ghost var winner := Survivor(Range(n), 0, 0, m);
    WalkStart(a[..n], m);
    var remaining: nat := n;
    var count: nat := 0;
    var i: nat := 0;
    while remaining > 1
      invariant Walk(a[..n], i, count, remaining, m)
      invariant Pending(a[..n], i, count, remaining, m) == winner
      invariant OnlyMarked(old(a[..]), a[..], n)
      decreases remaining, m - count, Gap(a[..n], i)
    {
      ghost var before := a[..];
      i, count, remaining := Step(a, n, m, i, count, remaining);
      OnlyMarkedTrans(old(a[..]), before, a[..], n);
    }
    WalkEnd(a[..n], i, count, m);
    GameWinner(n, m);
  }

  /** The output loop: the 1-based positions of the live cells, in order. */
  method Report(a: array<int>, n: int) returns (printed: seq<int>)
    requires 0 <= n <= a.Length
    ensures |printed| == |Alive(a[..n])|
    ensures forall k :: 0 <= k < |printed| ==> printed[k] == Alive(a[..n])[k] + 1
  {
    printed := [];
    for j := 0 to n
      invariant |printed| == |Alive(a[..j])|
      invariant forall k :: 0 <= k < |printed| ==> printed[k] == Alive(a[..j])[k] + 1
    {
      assert a[..j + 1][..j] == a[..j];
      if a[j] == 0 {
        printed := printed + [j + 1];
      }
    }
    assert a[..n] == a[..][..n];
  }

  /** The final array: below `n` only the winner's cell is still zero, and
      nothing at or beyond `n` was touched. */
  lemma FinalCells(before: seq<int>, cells: seq<int>, n: nat, w: nat)
    requires n <= |cells| && Alive(cells[..n]) == [w]
    requires OnlyMarked(before, cells, n)
    requires forall j :: 0 <= j < |before| ==> before[j] == 0
    ensures forall j :: 0 <= j < |cells| ==> (cells[j] == 0 <==> j >= n || j == w)
    ensures forall j :: 0 <= j < |cells| ==> cells[j] == 0 || cells[j] == 1
  {
    forall j | 0 <= j < n && cells[j] == 0
      ensures j == w
    {
      assert cells[..n][j] == 0;
      AliveComplete(cells[..n], j);
    }
    assert cells[..n][Alive(cells[..n])[0]] == 0;
  }

  /** With a single live cell `w`, the numbers printed are just `w + 1`. */
  lemma OnePrinted(printed: seq<int>, alive: seq<nat>, w: nat)
    requires |printed| == |alive| && forall k :: 0 <= k < |printed| ==> printed[k] == alive[k] + 1
    requires alive == [w]
    ensures printed == [w + 1]
  {
  }

  /** The whole program, with `n` and `m` as parameters in place of the
      console input. Returns the exit code, the numbers printed and the final
      contents of the array (empty when the input is refused). */
  method Play(n: int, m: int) returns (code: int, printed: seq<int>, cells: seq<int>)
    ensures code == 1 <==> Rejected(n, m)
    ensures code == 0 <==> !Rejected(n, m)
    ensures Rejected(n, m) ==> printed == [] && cells == []
    ensures !Rejected(n, m) ==> printed == [Josephus(n, m) + 1]
    ensures !Rejected(n, m) ==> |cells| == MaxSize && forall j :: 0 <= j < MaxSize ==>
                                  (cells[j] == 0 <==> j >= n || j == Josephus(n, m)) &&
                                  (cells[j] == 0 || cells[j] == 1)
  {
    if n < m || m < 2 || n > MaxSize {
      return 1, [], [];
    }
    var a := new int[MaxSize](_ => 0);
    Initialise(a, n);
    ghost var before := a[..];
    assert forall j :: 0 <= j < MaxSize ==> before[j] == 0;
    Eliminate(a, n, m);
    printed := Report(a, n);
    ghost var j0 := Josephus(n, m);
    OnePrinted(printed, Alive(a[..n]), j0);
    code, cells := 0, a[..];
    FinalCells(before, cells, n, j0);
  }
}
