/**
 * Rewrite counting over a snapshot history (`compute_instability`).
 *
 * Each snapshot is reduced to the fingerprints of its paragraphs; position
 * `x` is rewritten at transition `t` when the fingerprint at `x` differs
 * between snapshot `t - 1` and snapshot `t`, a position present on one side
 * only included. The result dictionary is modelled as a map of counts plus
 * the sequence of its keys in insertion order.
 */
module Instability {
  import opened Options
  import opened Text
  import opened Schemas
  import opened Paragraphs

  /** The fingerprints of a text's paragraphs, in paragraph order. */
  function Fingerprints(text: string): (fs: seq<string>)
    ensures |fs| == |ComputeParagraphs(text)|
  {
    var ps := ComputeParagraphs(text);
    seq(|ps|, k requires 0 <= k < |ps| => Fingerprint(ps[k]))
  }

  /** The fingerprint sequence of every snapshot, in snapshot order. */
  function History(snapshots: seq<Snapshot>): (hs: seq<seq<string>>)
    ensures |hs| == |snapshots|
  {
    seq(|snapshots|, i requires 0 <= i < |snapshots| => Fingerprints(snapshots[i].text))
  }

  /** Entry `i` of the history is the fingerprint sequence of snapshot `i`. */
  lemma HistoryAt(snapshots: seq<Snapshot>, i: int)
    requires 0 <= i < |snapshots|
    ensures History(snapshots)[i] == Fingerprints(snapshots[i].text)
  {
  }

  /** The fingerprint at position `x`, or `None` past the end. */
  function Slot(h: seq<string>, x: int): Option<string> {
    if 0 <= x < |h| then Some(h[x]) else None
  }

  /** Position `x` differs between snapshot `t - 1` and snapshot `t`. */
  predicate ChangedAt(hs: seq<seq<string>>, t: int, x: int)
    requires 1 <= t < |hs|
  {
    Slot(hs[t - 1], x) != Slot(hs[t], x)
  }

  /** The number of transitions among the first `n` snapshots that changed position `x`. */
  function Rewrites(hs: seq<seq<string>>, n: nat, x: int): (r: nat)
    requires n <= |hs|
    ensures r <= if n == 0 then 0 else n - 1
  {
    if n <= 1 then 0
    else Rewrites(hs, n - 1, x) + (if ChangedAt(hs, n - 1, x) then 1 else 0)
  }

  /** The largest paragraph count in the history. */
  function MaxLen(hs: seq<seq<string>>): (m: nat)
    ensures forall i | 0 <= i < |hs| :: |hs[i]| <= m
    ensures hs == [] ==> m == 0
  {
    if hs == [] then 0
    else
      var rest := MaxLen(hs[1..]);
      assert forall i | 1 <= i < |hs| :: hs[i] == hs[1..][i - 1];
      if |hs[0]| >= rest then |hs[0]| else rest
  }

  /** What `compute_instability` returns: every position rewritten at least once, with its count. */
  function RewriteCounts(hs: seq<seq<string>>): map<int, int> {
    map x | 0 <= x < MaxLen(hs) && Rewrites(hs, |hs|, x) > 0 :: Rewrites(hs, |hs|, x)
  }

  /** The first transition at or after `t` that changes position `x`, or `|hs|` if none does. */
  function EntryFrom(hs: seq<seq<string>>, x: int, t: nat): (e: nat)
    requires 1 <= t
    ensures e == |hs| || (t <= e < |hs| && ChangedAt(hs, e, x))
    ensures forall u | t <= u < |hs| && u < e :: !ChangedAt(hs, u, x)
    decreases |hs| - t
  {
    if t >= |hs| then |hs|
    else if ChangedAt(hs, t, x) then t
    else EntryFrom(hs, x, t + 1)
  }

  /** The transition at which position `x` first changed: when its key enters the dictionary. */
  function Entry(hs: seq<seq<string>>, x: int): nat {
    EntryFrom(hs, x, 1)
  }

  /** Position `x` enters the dictionary before position `y`. */
  predicate Precedes(hs: seq<seq<string>>, x: int, y: int) {
    Entry(hs, x) < Entry(hs, y) || (Entry(hs, x) == Entry(hs, y) && x < y)
  }

  /** `order` lists exactly the keys of `counts`, in the order they were inserted. */
  predicate InsertionOrdered(hs: seq<seq<string>>, order: seq<int>, counts: map<int, int>) {
    && (forall a, b | 0 <= a < b < |order| :: Precedes(hs, order[a], order[b]))
    && (forall x | x in order :: x in counts)
    && (forall x | x in counts :: x in order)
  }

  /** The count of position `x` after transitions before `t` and, at `t`, positions below `j`. */
  function Partial(hs: seq<seq<string>>, t: nat, j: int, x: int): nat
    requires 1 <= t <= |hs|
  {
    Rewrites(hs, t, x) + (if t < |hs| && x < j && ChangedAt(hs, t, x) then 1 else 0)
  }

  /** `counts` holds exactly the positive partial counts. */
  predicate Counted(hs: seq<seq<string>>, t: nat, j: int, counts: map<int, int>)
    requires 1 <= t <= |hs|
  {
    && (forall x | x in counts :: 0 <= x < MaxLen(hs) && counts[x] == Partial(hs, t, j, x) > 0)
    && (forall x | 0 <= x < MaxLen(hs) && Partial(hs, t, j, x) > 0 :: x in counts)
  }

  /** A position has been counted before transition `t` exactly when it first changed before `t`. */
  lemma {:induction false} RewritesEntry(hs: seq<seq<string>>, t: nat, x: int)
    requires 1 <= t <= |hs|
    ensures Rewrites(hs, t, x) > 0 <==> Entry(hs, x) < t
  {
    if t > 1 {
      RewritesEntry(hs, t - 1, x);
    }
  }

  /** Counting one unchanged position leaves the counts as they are. */
  lemma StepUnchanged(hs: seq<seq<string>>, t: nat, j: int, counts: map<int, int>)
    requires 1 <= t < |hs| && Counted(hs, t, j, counts)
    requires !ChangedAt(hs, t, j)
    ensures Counted(hs, t, j + 1, counts)
  {
    assert forall x :: Partial(hs, t, j + 1, x) == Partial(hs, t, j, x);
  }

  /** Counting a changed position that already has a key increments its count. */
  lemma StepIncrement(hs: seq<seq<string>>, t: nat, j: int, counts: map<int, int>)
    requires 1 <= t < |hs| && Counted(hs, t, j, counts)
    requires ChangedAt(hs, t, j) && j in counts
    ensures Counted(hs, t, j + 1, counts[j := counts[j] + 1])
  {
    assert forall x | x != j :: Partial(hs, t, j + 1, x) == Partial(hs, t, j, x);
  }

  /**
   * Counting a changed position that has no key yet inserts it with count 1,
   * and it is the latest key to enter the dictionary.
   */
  lemma StepInsert(hs: seq<seq<string>>, t: nat, j: int, counts: map<int, int>, order: seq<int>)
    requires 1 <= t < |hs| && 0 <= j
    requires Counted(hs, t, j, counts) && InsertionOrdered(hs, order, counts)
    requires ChangedAt(hs, t, j) && j !in counts
    ensures Counted(hs, t, j + 1, counts[j := 1])
    ensures InsertionOrdered(hs, order + [j], counts[j := 1])
  {
    assert j < |hs[t - 1]| || j < |hs[t]|;
    assert forall x | x != j :: Partial(hs, t, j + 1, x) == Partial(hs, t, j, x);
    assert Partial(hs, t, j, j) == 0;
    RewritesEntry(hs, t, j);
    assert Entry(hs, j) == t;
    forall a | 0 <= a < |order|
      ensures Precedes(hs, order[a], j)
    {
      var y := order[a];
      assert y in counts;
      RewritesEntry(hs, t, y);
      if Rewrites(hs, t, y) == 0 {
        assert y < j && ChangedAt(hs, t, y);
        assert Entry(hs, y) == t;
      }
    }
  }

  /** Once every position up to the longer list is counted, transition `t` is done. */
  lemma TransitionDone(hs: seq<seq<string>>, t: nat, m: int, counts: map<int, int>)
    requires 1 <= t < |hs| && |hs[t - 1]| <= m && |hs[t]| <= m
    requires Counted(hs, t, m, counts)
    ensures Counted(hs, t + 1, 0, counts)
  {
    assert forall x :: Partial(hs, t, m, x) == Partial(hs, t + 1, 0, x);
  }

  /** After the last transition the counts are the result. */
  lemma AllCounted(hs: seq<seq<string>>, counts: map<int, int>)
    requires 1 <= |hs| && Counted(hs, |hs|, 0, counts)
    ensures counts == RewriteCounts(hs)
  {
    assert counts.Keys == RewriteCounts(hs).Keys;
  }

  /**
   * The inner loop of `compute_instability` for transition `t`: compares the
   * fingerprint lists `prev` and `curr` position by position up to the longer
   * one and counts every position where they differ.
   */
  method CountTransition(ghost hs: seq<seq<string>>, ghost t: nat, prev: seq<string>, curr: seq<string>,
                         counts0: map<int, int>, order0: seq<int>)
    returns (counts: map<int, int>, order: seq<int>)
    requires 1 <= t < |hs| && prev == hs[t - 1] && curr == hs[t]
    requires Counted(hs, t, 0, counts0) && InsertionOrdered(hs, order0, counts0)
    ensures Counted(hs, t + 1, 0, counts) && InsertionOrdered(hs, order, counts)
  {
    counts, order := counts0, order0;
    var maxLen := if |prev| >= |curr| then |prev| else |curr|;
    var idx := 0;
    while idx < maxLen
      invariant 0 <= idx <= maxLen
      invariant Counted(hs, t, idx, counts)
      invariant InsertionOrdered(hs, order, counts)
    {
      var prevHash := if idx < |prev| then Some(prev[idx]) else None;
      var currHash := if idx < |curr| then Some(curr[idx]) else None;
      assert (prevHash != currHash) == ChangedAt(hs, t, idx);
      if prevHash != currHash {
        if idx in counts {
          StepIncrement(hs, t, idx, counts);
          counts := counts[idx := counts[idx] + 1];
        } else {
          StepInsert(hs, t, idx, counts, order);
          counts := counts[idx := 1];
          order := order + [idx];
        }
      } else {
        StepUnchanged(hs, t, idx, counts);
      }
      idx := idx + 1;
    }
    TransitionDone(hs, t, maxLen, counts);
  }

  /**
   * `compute_instability`: walks every pair of consecutive snapshots and
   * counts, per position, the transitions at which its fingerprint changed;
   * `order` is the key order of the resulting dictionary.
   */
  method ComputeInstability(snapshots: seq<Snapshot>) returns (counts: map<int, int>, order: seq<int>)
    ensures counts == RewriteCounts(History(snapshots))
    ensures InsertionOrdered(History(snapshots), order, counts)
  {
    ghost var hs := History(snapshots);
    if |snapshots| < 2 {
      FewSnapshotsNoRewrites(hs);
      return map[], [];
    }
    counts, order := map[], [];
    var i := 1;
    while i < |snapshots|
      invariant 1 <= i <= |snapshots|
      invariant Counted(hs, i, 0, counts)
      invariant InsertionOrdered(hs, order, counts)
    {
      var prev := Fingerprints(snapshots[i - 1].text);
      var curr := Fingerprints(snapshots[i].text);
      HistoryAt(snapshots, i - 1);
      HistoryAt(snapshots, i);
      counts, order := CountTransition(hs, i, prev, curr, counts, order);
      i := i + 1;
    }
    AllCounted(hs, counts);
  }

  // ---------------------------------------------------------------- lemmas

  /** Fewer than two snapshots give no rewrite at all. */
  lemma FewSnapshotsNoRewrites(hs: seq<seq<string>>)
    requires |hs| < 2
    ensures RewriteCounts(hs) == map[]
  {
    assert RewriteCounts(hs).Keys == {};
  }

  /** A position that never changes is never counted. */
  lemma {:induction false} UnchangedPosition(hs: seq<seq<string>>, n: nat, x: int)
    requires n <= |hs|
    requires forall t | 1 <= t < n :: !ChangedAt(hs, t, x)
    ensures Rewrites(hs, n, x) == 0
  {
    if n > 1 {
      UnchangedPosition(hs, n - 1, x);
    }
  }

  /** A history whose consecutive snapshots have equal fingerprints has no rewrites. */
  lemma UnchangedHistory(hs: seq<seq<string>>)
    requires forall t | 1 <= t < |hs| :: hs[t - 1] == hs[t]
    ensures RewriteCounts(hs) == map[]
  {
    forall x | 0 <= x < MaxLen(hs)
      ensures Rewrites(hs, |hs|, x) == 0
    {
      UnchangedPosition(hs, |hs|, x);
    }
    assert RewriteCounts(hs).Keys == {};
  }

  /** Rewrite counts only grow as the history is read further. */
  lemma {:induction false} RewritesMonotone(hs: seq<seq<string>>, m: nat, n: nat, x: int)
    requires m <= n <= |hs|
    ensures Rewrites(hs, m, x) <= Rewrites(hs, n, x)
    decreases n - m
  {
    if m < n {
      RewritesMonotone(hs, m, n - 1, x);
    }
  }

  /** Every change between two consecutive snapshots is counted. */
  lemma ChangeIsCounted(hs: seq<seq<string>>, t: int, x: int)
    requires 1 <= t < |hs|
    requires ChangedAt(hs, t, x)
    ensures x in RewriteCounts(hs) && RewriteCounts(hs)[x] >= 1
  {
    RewritesMonotone(hs, t + 1, |hs|, x);
    assert 0 <= x < |hs[t - 1]| || 0 <= x < |hs[t]|;
  }

  /** A position present in only one of two consecutive snapshots counts as rewritten. */
  lemma OneSidedPositionCounted(hs: seq<seq<string>>, t: int, x: nat)
    requires 1 <= t < |hs|
    requires (x < |hs[t - 1]|) != (x < |hs[t]|)
    ensures x in RewriteCounts(hs) && RewriteCounts(hs)[x] >= 1
  {
    ChangeIsCounted(hs, t, x);
  }

  /**
   * Every count is between 1 and the number of transitions, and every key is
   * a position some snapshot actually has, hence below the largest paragraph
   * count.
   */
  lemma RewriteCountBounds(hs: seq<seq<string>>, x: int)
    requires x in RewriteCounts(hs)
    ensures 1 <= RewriteCounts(hs)[x] <= |hs| - 1
    ensures 0 <= x < MaxLen(hs)
    ensures exists i | 0 <= i < |hs| :: x < |hs[i]|
  {
    RewritesEntry(hs, |hs|, x);
    var e := Entry(hs, x);
    assert ChangedAt(hs, e, x);
    assert x < |hs[e - 1]| || x < |hs[e]|;
  }

  /** A position that changes at every transition is counted once per transition. */
  lemma {:induction false} AlwaysChanged(hs: seq<seq<string>>, n: nat, x: int)
    requires 1 <= n <= |hs|
    requires forall t | 1 <= t < n :: ChangedAt(hs, t, x)
    ensures Rewrites(hs, n, x) == n - 1
  {
    if n > 1 {
      AlwaysChanged(hs, n - 1, x);
    }
  }

  /** A position is in the result exactly when it changed at some transition. */
  lemma InResultIffChanged(hs: seq<seq<string>>, x: int)
    ensures x in RewriteCounts(hs) <==> exists t | 1 <= t < |hs| :: ChangedAt(hs, t, x)
  {
    if x in RewriteCounts(hs) {
      RewritesEntry(hs, |hs|, x);
      assert ChangedAt(hs, Entry(hs, x), x);
    }
    if exists t | 1 <= t < |hs| :: ChangedAt(hs, t, x) {
      var t :| 1 <= t < |hs| && ChangedAt(hs, t, x);
      ChangeIsCounted(hs, t, x);
    }
  }

  /**
   * Rewording a text only by re-spacing its words (same paragraphs, same words
   * in each) leaves its fingerprints, and hence every position, unchanged.
   */
  lemma RespacingIsNoRewrite(a: string, b: string)
    requires |ComputeParagraphs(a)| == |ComputeParagraphs(b)|
    requires forall k | 0 <= k < |ComputeParagraphs(a)| ::
               Words(ComputeParagraphs(a)[k]) == Words(ComputeParagraphs(b)[k])
    ensures Fingerprints(a) == Fingerprints(b)
  {
    var pa, pb := ComputeParagraphs(a), ComputeParagraphs(b);
    forall k | 0 <= k < |pa|
      ensures Fingerprints(a)[k] == Fingerprints(b)[k]
    {
      FingerprintIgnoresSpacing(pa[k], pb[k]);
    }
  }

  /** Entering order is a strict total order on positions. */
  lemma PrecedesStrictTotal(hs: seq<seq<string>>, x: int, y: int)
    ensures !Precedes(hs, x, x)
    ensures Precedes(hs, x, y) ==> !Precedes(hs, y, x)
    ensures x != y ==> Precedes(hs, x, y) || Precedes(hs, y, x)
  {
  }

  /** `lt` is a strict total order on positions. */
  ghost predicate StrictTotal(lt: (int, int) -> bool) {
    && (forall x, y :: lt(x, y) ==> !lt(y, x))
    && (forall x, y :: x != y ==> lt(x, y) || lt(y, x))
  }

  /** `a` is sorted by `lt`. */
  ghost predicate SortedBy(lt: (int, int) -> bool, a: seq<int>) {
    forall i, j | 0 <= i < j < |a| :: lt(a[i], a[j])
  }

  /** The elements after the first of a sequence sorted by a strict order differ from it. */
  lemma SortedTailDiffers(lt: (int, int) -> bool, a: seq<int>, k: nat)
    requires StrictTotal(lt) && SortedBy(lt, a)
    requires 0 < k < |a|
    ensures a[k] != a[0]
  {
    assert lt(a[0], a[k]);
  }

  /** Two non-empty sequences sorted by one strict total order, each holding the other's first element, start alike. */
  lemma SortedHeads(lt: (int, int) -> bool, a: seq<int>, b: seq<int>)
    requires StrictTotal(lt) && SortedBy(lt, a) && SortedBy(lt, b)
    requires a != [] && b != [] && a[0] in b && b[0] in a
    ensures a[0] == b[0]
  {
    var i :| 0 <= i < |a| && a[i] == b[0];
    var j :| 0 <= j < |b| && b[j] == a[0];
  }

  /** The tail of a sorted sequence holds the other's elements but its first. */
  lemma TailMembers(lt: (int, int) -> bool, a: seq<int>, b: seq<int>)
    requires StrictTotal(lt) && SortedBy(lt, a)
    requires a != [] && b != [] && a[0] == b[0]
    requires forall i | 0 <= i < |a| :: a[i] in b
    ensures forall k | 0 <= k < |a[1..]| :: a[1..][k] in b[1..]
  {
    forall k | 0 <= k < |a[1..]|
      ensures a[1..][k] in b[1..]
    {
      SortedTailDiffers(lt, a, k + 1);
      assert a[k + 1] in b;
      var l :| 0 <= l < |b| && b[l] == a[k + 1];
      assert b[1..][l - 1] == a[k + 1];
    }
  }

  /** The tail of a sorted sequence is sorted. */
  lemma SortedTail(lt: (int, int) -> bool, a: seq<int>)
    requires SortedBy(lt, a) && a != []
    ensures SortedBy(lt, a[1..])
  {
    forall i, j | 0 <= i < j < |a[1..]|
      ensures lt(a[1..][i], a[1..][j])
    {
      assert a[1..][i] == a[i + 1] && a[1..][j] == a[j + 1];
    }
  }

  /** Two sequences sorted by the same strict total order, with the same elements, are equal. */
  lemma {:induction false} SortedUnique(lt: (int, int) -> bool, a: seq<int>, b: seq<int>)
    requires StrictTotal(lt) && SortedBy(lt, a) && SortedBy(lt, b)
    requires forall i | 0 <= i < |a| :: a[i] in b
    requires forall j | 0 <= j < |b| :: b[j] in a
    ensures a == b
    decreases |a|
  {
    if b != [] {
      assert b[0] in a;
    }
    if a != [] {
      assert a[0] in b;
      SortedHeads(lt, a, b);
      TailMembers(lt, a, b);
      TailMembers(lt, b, a);
      SortedTail(lt, a);
      SortedTail(lt, b);
      SortedUnique(lt, a[1..], b[1..]);
      assert a == [a[0]] + a[1..] && b == [b[0]] + b[1..];
    }
  }

  /** The key order of the result is determined by the history: the dictionary's iteration order is not arbitrary. */
  lemma InsertionOrderUnique(hs: seq<seq<string>>, counts: map<int, int>, order1: seq<int>, order2: seq<int>)
    requires InsertionOrdered(hs, order1, counts) && InsertionOrdered(hs, order2, counts)
    ensures order1 == order2
  {
    forall i | 0 <= i < |order1| ensures order1[i] in order2 {
      assert order1[i] in order1;
    }
    forall j | 0 <= j < |order2| ensures order2[j] in order1 {
      assert order2[j] in order2;
    }
    var lt := (x, y) => Precedes(hs, x, y);
    forall x, y
      ensures lt(x, y) ==> !lt(y, x)
      ensures x != y ==> lt(x, y) || lt(y, x)
    {
      PrecedesStrictTotal(hs, x, y);
    }
    SortedUnique(lt, order1, order2);
  }
}
