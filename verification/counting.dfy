/** Subsequence counting of the loader (`GeneBankCreateBTree.java:51-56`,
    `220-242`, `276-294`): every window of a fixed length in a sequence is
    counted in a map from window to Java `int` count, and the maps of all
    sequences are merged by adding counts. */
module Counting {
  import opened Base

  /** A window to count: `substrings` skips the empty window and any
      window with an `n` or `N` in it. */
  predicate Countable(w: seq<char>)
  {
    w != [] && 'n' !in w && 'N' !in w
  }

  /** Java `int` addition: the sum wraps modulo 2^32. */
  function AddInt(a: Int32, b: Int32): (r: Int32)
    ensures MinInt32 <= a + b <= MaxInt32 ==> r == a + b
    ensures (r - a - b) % 0x1_0000_0000 == 0
  {
    var s := a + b;
    if s > MaxInt32 then s - 0x1_0000_0000 else if s < MinInt32 then s + 0x1_0000_0000 else s
  }

  /** A window-to-count map, Java's `HashMap<String, Integer>`. */
  type Tally = map<seq<char>, Int32>

  /** The body of `substrings`' loop for the window `w`. */
  function Tick(m: Tally, w: seq<char>): (r: Tally)
    ensures r.Keys == if Countable(w) then m.Keys + {w} else m.Keys
    ensures forall v :: v in m && v != w ==> r[v] == m[v]
  {
    if !Countable(w) then m
    else if w in m then m[w := IncFreq(m[w])]
    else m[w := 1]
  }

  /** The number of windows of length `len` in `str`: positions `i` with
      `i + len <= |str|`. */
  function Positions(str: seq<char>, len: nat): (r: nat)
    ensures r > 0 ==> r + len == |str| + 1
    ensures len <= |str| ==> r == |str| + 1 - len
  {
    if len > |str| then 0 else |str| + 1 - len
  }

  /** `substrings`' loop after its first `n` steps. */
  function Scan(str: seq<char>, len: nat, n: nat): (r: Tally)
    requires n <= Positions(str, len)
  {
    if n == 0 then map[] else Tick(Scan(str, len, n - 1), str[n - 1..n - 1 + len])
  }

  /** `substrings(str, len)`. A negative length makes the first
      `str.substring(0, len)` throw. */
  function Substrings(str: seq<char>, len: int): (r: Result<Tally>)
    ensures r.Failure? <==> len < 0
    ensures r.Failure? ==> r.error == IndexOutOfBounds
  {
    if len < 0 then Failure(IndexOutOfBounds) else Success(Scan(str, len, Positions(str, len)))
  }

  /** The reference count: how many of the first `n` windows equal `w`. */
  function Occurrences(str: seq<char>, len: nat, w: seq<char>, n: nat): (r: nat)
    requires n <= Positions(str, len)
    ensures r <= n
  {
    if n == 0 then 0
    else Occurrences(str, len, w, n - 1) + (if str[n - 1..n - 1 + len] == w then 1 else 0)
  }

  /** The reference total: how many of the first `n` windows are countable. */
  function Qualifying(str: seq<char>, len: nat, n: nat): (r: nat)
    requires n <= Positions(str, len)
    ensures r <= n
  {
    if n == 0 then 0
    else Qualifying(str, len, n - 1) + (if Countable(str[n - 1..n - 1 + len]) then 1 else 0)
  }

  /** The sum of the counts of a map. */
  ghost function Total(m: Tally): int
    decreases |m|
  {
    if m == map[] then 0 else var k :| k in m; m[k] + Total(m - {k})
  }

  /** `Total` does not depend on the key it takes out first. */
  lemma {:induction false} TotalRemove(m: Tally, k: seq<char>)
    requires k in m
    ensures Total(m) == m[k] + Total(m - {k})
    decreases |m|
  {
    var j :| j in m && Total(m) == m[j] + Total(m - {j});
    if j != k {
      var mj, mk := m - {j}, m - {k};
      assert k in mj && j in mk;
      TotalRemove(mj, k);
      TotalRemove(mk, j);
      assert mj - {k} == mk - {j};
    }
  }

  /** Putting a new key, or raising a count, moves the total by the
      difference. */
  lemma TotalUpdate(m: Tally, k: seq<char>, v: Int32)
    ensures Total(m[k := v]) == Total(m) + v - (if k in m then m[k] else 0)
  {
    var m' := m[k := v];
    TotalRemove(m', k);
    if k in m {
      TotalRemove(m, k);
      assert m' - {k} == m - {k};
    } else {
      assert m' - {k} == m;
    }
  }

  /** Scanning the first `n` windows, as long as no count can wrap, counts
      every countable window exactly as often as it occurs: the key set is
      the countable windows, and each count is the window's number of
      occurrences, so at least 1. */
  lemma {:induction false} ScanCounts(str: seq<char>, len: nat, n: nat)
    requires n <= Positions(str, len) && n <= MaxInt32
    ensures forall w :: w in Scan(str, len, n) <==> Countable(w) && Occurrences(str, len, w, n) > 0
    ensures forall w :: w in Scan(str, len, n) ==> Scan(str, len, n)[w] == Occurrences(str, len, w, n) >= 1
  {
    if n > 0 {
      ScanCounts(str, len, n - 1);
    }
  }

  /** The counts `substrings` keeps sum to the number of countable
      windows, as long as no count can wrap. */
  lemma {:induction false} ScanTotal(str: seq<char>, len: nat, n: nat)
    requires n <= Positions(str, len) && n <= MaxInt32
    ensures Total(Scan(str, len, n)) == Qualifying(str, len, n)
  {
    if n > 0 {
      ScanTotal(str, len, n - 1);
      ScanCounts(str, len, n - 1);
      var m, x := Scan(str, len, n - 1), str[n - 1..n - 1 + len];
      assert Scan(str, len, n) == Tick(m, x);
      assert Qualifying(str, len, n) == Qualifying(str, len, n - 1) + (if Countable(x) then 1 else 0);
      hide Scan, Qualifying, Occurrences;
      if Countable(x) {
        var v: Int32 := if x in m then IncFreq(m[x]) else 1;
        assert v == (if x in m then m[x] else 0) + 1;
        assert Tick(m, x) == m[x := v];
        TotalUpdate(m, x, v);
        assert Total(Scan(str, len, n)) == Total(m) + 1;
      } else {
        assert Tick(m, x) == m;
      }
    }
  }

  /** A window of `substrings`' result has the requested length. */
  lemma {:induction false} ScanLength(str: seq<char>, len: nat, n: nat)
    requires n <= Positions(str, len)
    ensures forall w :: w in Scan(str, len, n) ==> |w| == len
  {
    if n > 0 {
      ScanLength(str, len, n - 1);
    }
  }

  /** The map `hash_add(dest, src)` stands for: the union of the keys, the
      wrapped sum where both have the key, the one count where one has it. */
  function Merged(dest: Tally, src: Tally): (r: Tally)
    ensures r.Keys == dest.Keys + src.Keys
  {
    map k | k in dest.Keys + src.Keys ::
      if k in src && k in dest then AddInt(src[k], dest[k])
      else if k in src then src[k] else dest[k]
  }

  /** `hash_add(dest, src)`: the loop over `src`'s entries, in any order,
      merges the counts into `dest`; an empty `dest` is answered with `src`
      itself. */
  method HashAdd(dest: Tally, src: Tally) returns (r: Tally)
    ensures r == Merged(dest, src)
  {
    if |dest| == 0 {
      MergedEmpty(dest, src);
      return src;
    }
    hide Merged;
    assert src - src.Keys == map[];
    MergedEmpty(src - src.Keys, dest);
    r := dest;
    var todo := src.Keys;
    while todo != {}
      invariant todo <= src.Keys
      invariant r == Merged(dest, src - todo)
      decreases |todo|
    {
      var k :| k in todo;
      var v := src[k];
      MergeStep(dest, src, todo, k);
      if k in r {
        r := r[k := AddInt(v, r[k])];
      } else {
        r := r[k := v];
      }
      todo := todo - {k};
    }
    assert src - todo == src;
  }

  /** Merging with an empty map changes nothing, on either side. */
  lemma MergedEmpty(e: Tally, m: Tally)
    requires |e| == 0
    ensures Merged(e, m) == m && Merged(m, e) == m
  {
    assert e == map[];
  }

  /** One step of `hash_add`'s loop: merging one more key of `src`. */
  lemma MergeStep(dest: Tally, src: Tally, todo: set<seq<char>>, k: seq<char>)
    requires todo <= src.Keys && k in todo
    ensures src - (todo - {k}) == (src - todo)[k := src[k]]
    ensures k in Merged(dest, src - todo) <==> k in dest
    ensures k in dest ==> Merged(dest, src - todo)[k] == dest[k]
    ensures Merged(dest, src - (todo - {k})) == Merged(dest, src - todo)[k :=
      if k in dest then AddInt(src[k], dest[k]) else src[k]]
  {
    var done, done' := src - todo, src - (todo - {k});
    assert done' == done[k := src[k]];
    var a, b := Merged(dest, done'), Merged(dest, done)[k := if k in dest then AddInt(src[k], dest[k]) else src[k]];
    assert a.Keys == b.Keys;
    forall j | j in a.Keys
      ensures a[j] == b[j]
    {
    }
  }

  /** `main`'s first loop after `n` sequences: each sequence's windows
      counted and merged into the running map. */
  function Aggregate(seqs: seq<seq<char>>, len: int, n: nat): (r: Result<Tally>)
    requires n <= |seqs|
    ensures r.Failure? <==> len < 0 && n > 0
  {
    if n == 0 then Success(map[])
    else
      match Aggregate(seqs, len, n - 1)
      case Failure(e) => Failure(e)
      case Success(acc) =>
        match Substrings(seqs[n - 1], len)
        case Failure(e) => Failure(e)
        case Success(subs) => Success(Merged(acc, subs))
  }

  /** The reference count over sequences: how often `w` occurs as a window
      of the first `n` sequences. */
  function OccurrencesIn(seqs: seq<seq<char>>, len: nat, w: seq<char>, n: nat): (r: nat)
    requires n <= |seqs|
    ensures r <= WindowsIn(seqs, len, n)
  {
    if n == 0 then 0
    else OccurrencesIn(seqs, len, w, n - 1) + Occurrences(seqs[n - 1], len, w, Positions(seqs[n - 1], len))
  }

  /** The number of windows of the first `n` sequences. */
  function WindowsIn(seqs: seq<seq<char>>, len: nat, n: nat): (r: nat)
    requires n <= |seqs|
  {
    if n == 0 then 0 else WindowsIn(seqs, len, n - 1) + Positions(seqs[n - 1], len)
  }

  /** With fewer windows in all than `Integer.MAX_VALUE`, the merged map
      holds exactly the countable windows of length `len` that occur, each
      with its number of occurrences across all sequences. */
  lemma {:induction false} AggregateCounts(seqs: seq<seq<char>>, len: nat, n: nat)
    requires n <= |seqs| && WindowsIn(seqs, len, n) <= MaxInt32
    ensures Aggregate(seqs, len, n).Success?
    ensures forall w :: w in Aggregate(seqs, len, n).value <==>
      Countable(w) && |w| == len && OccurrencesIn(seqs, len, w, n) > 0
    ensures forall w :: w in Aggregate(seqs, len, n).value ==>
      Aggregate(seqs, len, n).value[w] == OccurrencesIn(seqs, len, w, n)
  {
    if n > 0 {
      AggregateCounts(seqs, len, n - 1);
      var acc := Aggregate(seqs, len, n - 1).value;
      var str := seqs[n - 1];
      var p := Positions(str, len);
      var subs := Scan(str, len, p);
      ScanCounts(str, len, p);
      ScanLength(str, len, p);
      assert Aggregate(seqs, len, n) == Success(Merged(acc, subs));
      forall w
        ensures w in Merged(acc, subs) <==> Countable(w) && |w| == len && OccurrencesIn(seqs, len, w, n) > 0
        ensures w in Merged(acc, subs) ==> Merged(acc, subs)[w] == OccurrencesIn(seqs, len, w, n)
      {
        if Countable(w) && |w| == len {
          MergeAt(acc, subs, w, OccurrencesIn(seqs, len, w, n - 1), Occurrences(str, len, w, p));
        }
      }
    }
  }

  /** Merging two maps that count `w` as `ca` and `cb` (a count of 0 being
      no entry) counts it as `ca + cb`, when that does not wrap. */
  lemma MergeAt(a: Tally, b: Tally, w: seq<char>, ca: nat, cb: nat)
    requires (w in a <==> ca > 0) && (w in a ==> a[w] == ca)
    requires (w in b <==> cb > 0) && (w in b ==> b[w] == cb)
    requires ca + cb <= MaxInt32
    ensures w in Merged(a, b) <==> ca + cb > 0
    ensures w in Merged(a, b) ==> Merged(a, b)[w] == ca + cb
  {
  }
}
