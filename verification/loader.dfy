/** The insert loop of the loader (`GeneBankCreateBTree.java:97-113`): for
    each entry of the merged count map, in the map's iteration order, the
    window is encoded, the encoding is checked by decoding it again, and
    the key is inserted as many times as the window was counted. */
module Loader {
  import opened Base
  import opened Nodes
  import opened Engine
  import opened Shapes
  import opened Contents
  import opened Inserting
  import opened Insertion
  import opened KeyCodec
  import opened Defect

  /** `for (int i = 0; i < freq; i++) btree.insert(key)`, with the
      comparison after a split as written (`AsWritten`, what the loader
      runs) or as intended (`Intended`, what the theorems below are
      about). */
  function InsertTimes(mode: Comparison, tr: BTree, key: Int64, n: int): (r: Result<BTree>)
    requires Rooted(tr)
    ensures r.Success? ==> Rooted(r.value) && r.value.t == tr.t
    decreases n
  {
    if n <= 0 then Success(tr)
    else
      match InsertWith(mode, tr, key)
      case Failure(e) => Failure(e)
      case Success(tr') => InsertTimes(mode, tr', key, n - 1)
  }

  /** The loop body for one entry `(w, freq)`: a window whose key does not
      decode back to it ends the loader. */
  function LoadEntry(mode: Comparison, tr: BTree, len: int, w: seq<char>, freq: Int32): (r: Result<BTree>)
    requires Rooted(tr)
    ensures r.Success? ==> Rooted(r.value) && r.value.t == tr.t
    ensures KeyDecode(SeqEncode(w), len) != w ==> r == Failure(BadEncoding)
  {
    var key := SeqEncode(w);
    if KeyDecode(key, len) != w then Failure(BadEncoding) else InsertTimes(mode, tr, key, freq)
  }

  /** The loop over the entries, listed in iteration order. */
  function Load(mode: Comparison, tr: BTree, len: int, entries: seq<(seq<char>, Int32)>): (r: Result<BTree>)
    requires Rooted(tr)
    ensures r.Success? ==> Rooted(r.value) && r.value.t == tr.t
    decreases |entries|
  {
    if entries == [] then Success(tr)
    else
      match LoadEntry(mode, tr, len, entries[0].0, entries[0].1)
      case Failure(e) => Failure(e)
      case Success(tr') => Load(mode, tr', len, entries[1..])
  }

  /** A count map after `key` was counted `n` more times. */
  function CountedTimes(m: map<int, Int32>, k: int, n: nat): (r: map<int, Int32>)
    decreases n
  {
    if n == 0 then m else CountedTimes(Counted(m, k), k, n - 1)
  }

  /** Counting `k` `n` times adds `n` to its count, 0 if it had none, as
      long as that stays below `Integer.MAX_VALUE`, and leaves every other
      count alone. */
  lemma {:induction false} CountedTimesValue(m: map<int, Int32>, k: int, n: nat)
    requires (if k in m then m[k] else 0) + n <= MaxInt32
    ensures CountedTimes(m, k, n).Keys == if n == 0 then m.Keys else m.Keys + {k}
    ensures n > 0 ==> CountedTimes(m, k, n)[k] == (if k in m then m[k] else 0) + n
    ensures forall j :: j in m && j != k ==> CountedTimes(m, k, n)[j] == m[j]
    decreases n
  {
    if n > 0 {
      CountedTimesValue(Counted(m, k), k, n - 1);
    }
  }

  /** `n` inserts of `key` into a valid tree whose cursor has room for
      `n` worst cases at height `h`: all succeed, the tree stays valid,
      grows by at most one level per insert, and counts `key` `n` times
      more. */
  lemma {:induction false} InsertTimesCorrect(tr: BTree, T: Shape, key: Int64, n: nat, h: int)
    returns (tr': BTree, T': Shape)
    requires Valid(tr, T) && Height(T) + 2 + n <= h
    requires tr.next + Cost(tr.t, h, n) <= MaxInt64
    ensures InsertTimes(Intended, tr, key, n) == Success(tr')
    ensures Valid(tr', T') && Counts(T') == CountedTimes(Counts(T), key, n)
    ensures Height(T') <= Height(T) + n
    ensures tr'.next <= tr.next + Cost(tr.t, h, n)
    decreases n
  {
    hide *;
    ValidDegree(tr, T);
    if n == 0 {
      tr', T' := tr, T;
      InsertTimesStep(tr, key, n, tr);
      CountedTimesStep(Counts(T), key, n);
    } else {
      var c := Budget(tr.t, Height(T) + 3);
      BudgetMono(tr.t, Height(T) + 3, h);
      Spend(tr.t, h, tr.next, n, c, tr.next);
      RoomFrom(tr, T);
      var tr1, T1 := InsertCorrect(tr, T, key);
      assert tr1.t == tr.t;
      Spend(tr.t, h, tr.next, n, c, tr1.next);
      tr', T' := InsertTimesCorrect(tr1, T1, key, n - 1, h);
      InsertTimesStep(tr, key, n, tr1);
      CountedTimesStep(Counts(T), key, n);
    }
  }

  lemma ValidDegree(tr: BTree, T: Shape)
    requires Valid(tr, T)
    ensures Rooted(tr) && Degree(tr.t)
  {
    ValidRooted(tr, T);
  }

  lemma RoomFrom(tr: BTree, T: Shape)
    requires Degree(tr.t) && tr.next + Budget(tr.t, Height(T) + 3) <= MaxInt64
    ensures Room(tr, T)
  {
  }

  /** Counting `n` times is counting once, then `n - 1` times. */
  lemma CountedTimesStep(m: map<int, Int32>, k: int, n: nat)
    ensures n == 0 ==> CountedTimes(m, k, n) == m
    ensures n > 0 ==> CountedTimes(m, k, n) == CountedTimes(Counted(m, k), k, n - 1)
  {
  }

  /** The loop ends at `n == 0`; otherwise one insert is taken. */
  lemma InsertTimesStep(tr: BTree, key: Int64, n: int, tr1: BTree)
    requires Rooted(tr)
    ensures n <= 0 ==> InsertTimes(Intended, tr, key, n) == Success(tr)
    ensures n > 0 && Insert(tr, key) == Success(tr1) ==> InsertTimes(Intended, tr, key, n) == InsertTimes(Intended, tr1, key, n - 1)
  {
  }

  /** The cursor room `n` inserts into a tree of height below `h` need at
      most. */
  function Cost(t: int, h: int, n: nat): (r: int)
    requires Degree(t)
    ensures r >= 0
  {
    n * Budget(t, h)
  }

  /** The cursor arithmetic of a loop of `n` inserts, each costing at
      most `Budget(t, h)`: the first has room for its cost `c`, and after
      it, at `next1`, the other `n - 1` still have room. */
  lemma Spend(t: int, h: int, next: int, n: nat, c: int, next1: int)
    requires Degree(t) && n > 0 && 0 <= c <= Budget(t, h)
    requires next + Cost(t, h, n) <= MaxInt64 && next <= next1 <= next + c
    ensures next + c <= MaxInt64
    ensures next1 + Cost(t, h, n - 1) <= next + Cost(t, h, n)
  {
    CostSplit(t, h, 1, n - 1);
  }

  function Word(e: (seq<char>, Int32)): seq<char> { e.0 }

  /** The key of an entry's window. */
  function KeyOf(e: (seq<char>, Int32)): Int64 { SeqEncode(e.0) }

  /** The number of passes of `for (int i = 0; i < freq; i++)`: none for
      a count that is not positive. */
  function Times(freq: Int32): (r: nat)
    ensures freq >= 1 ==> r == freq
    ensures freq <= 0 ==> r == 0
  {
    if freq <= 0 then 0 else freq as nat
  }

  /** The number of inserts the entries ask for. */
  function Inserts(entries: seq<(seq<char>, Int32)>): (r: nat)
    ensures |entries| > 0 ==> r >= Times(entries[0].1)
  {
    if entries == [] then 0 else Times(entries[0].1) + Inserts(entries[1..])
  }

  /** The count map after loading `entries` into a tree counting `m`. */
  function Applied(m: map<int, Int32>, entries: seq<(seq<char>, Int32)>): (r: map<int, Int32>)
    decreases |entries|
  {
    if entries == [] then m
    else Applied(CountedTimes(m, KeyOf(entries[0]), Times(entries[0].1)), entries[1..])
  }

  /** What the loader needs of its entries: windows of length `len`, at
      most 31, each counted at least once. */
  predicate Windows(len: int, entries: seq<(seq<char>, Int32)>)
  {
    && len <= 31
    && forall i :: 0 <= i < |entries| ==> |Word(entries[i])| == len && entries[i].1 >= 1
  }

  predicate AllDna(entries: seq<(seq<char>, Int32)>)
  {
    forall i :: 0 <= i < |entries| ==> IsDna(Word(entries[i]))
  }

  /** The loop over the entries on a valid tree with room for all their
      inserts: it succeeds exactly when every window is DNA, and the tree
      then counts each window's key as often as the entry says; otherwise
      it stops with the encoding error. */
  lemma {:induction false} LoadCorrect(tr: BTree, T: Shape, len: int, entries: seq<(seq<char>, Int32)>, h: int)
    returns (tr': BTree, T': Shape)
    requires Valid(tr, T) && Windows(len, entries)
    requires Height(T) + 2 + Inserts(entries) <= h
    requires tr.next + Cost(tr.t, h, Inserts(entries)) <= MaxInt64
    ensures AllDna(entries) ==> Load(Intended, tr, len, entries) == Success(tr')
    ensures AllDna(entries) ==> Valid(tr', T') && Counts(T') == Applied(Counts(T), entries)
    ensures !AllDna(entries) ==> Load(Intended, tr, len, entries) == Failure(BadEncoding)
    decreases |entries|
  {
    hide *;
    ValidDegree(tr, T);
    EntriesStep(Counts(T), len, entries);
    if entries == [] {
      tr', T' := tr, T;
      LoadStep(Intended, tr, len, entries, tr);
    } else {
      var (w, f) := entries[0];
      var rest := entries[1..];
      CheckPasses(w);
      EntryStep(Intended, tr, len, w, f);
      if !IsDna(w) {
        tr', T' := tr, T;
        LoadStep(Intended, tr, len, entries, tr);
      } else {
        CostSplit(tr.t, h, Times(f), Inserts(rest));
        var tr1, T1 := InsertTimesCorrect(tr, T, SeqEncode(w), Times(f), h);
        LoadStep(Intended, tr, len, entries, tr1);
        tr', T' := LoadCorrect(tr1, T1, len, rest, h);
      }
    }
  }

  /** The loop ends on no entries, stops at a failing entry, and otherwise
      goes on with the rest. */
  lemma LoadStep(mode: Comparison, tr: BTree, len: int, entries: seq<(seq<char>, Int32)>, tr1: BTree)
    requires Rooted(tr)
    ensures entries == [] ==> Load(mode, tr, len, entries) == Success(tr)
    ensures entries != [] && LoadEntry(mode, tr, len, entries[0].0, entries[0].1).Failure? ==>
      Load(mode, tr, len, entries) == Failure(LoadEntry(mode, tr, len, entries[0].0, entries[0].1).error)
    ensures entries != [] && LoadEntry(mode, tr, len, entries[0].0, entries[0].1) == Success(tr1) ==>
      Rooted(tr1) && Load(mode, tr, len, entries) == Load(mode, tr1, len, entries[1..])
  {
  }

  /** The entry's check and inserts. */
  lemma EntryStep(mode: Comparison, tr: BTree, len: int, w: seq<char>, f: Int32)
    requires Rooted(tr)
    ensures KeyDecode(SeqEncode(w), len) != w ==> LoadEntry(mode, tr, len, w, f) == Failure(BadEncoding)
    ensures KeyDecode(SeqEncode(w), len) == w ==> LoadEntry(mode, tr, len, w, f) == InsertTimes(mode, tr, SeqEncode(w), Times(f))
  {
  }

  /** The conditions on the entries, the number of inserts and the count
      map, split into the first entry and the rest. */
  lemma EntriesStep(m: map<int, Int32>, len: int, entries: seq<(seq<char>, Int32)>)
    requires Windows(len, entries)
    ensures entries == [] ==> AllDna(entries) && Applied(m, entries) == m && Inserts(entries) == 0
    ensures entries != [] ==>
      && Windows(len, entries[1..]) && |entries[0].0| == len <= 31 && entries[0].1 >= 1
      && Inserts(entries) == Times(entries[0].1) + Inserts(entries[1..])
      && (AllDna(entries) <==> IsDna(entries[0].0) && AllDna(entries[1..]))
      && KeyOf(entries[0]) == SeqEncode(entries[0].0)
      && Applied(m, entries) == Applied(CountedTimes(m, KeyOf(entries[0]), Times(entries[0].1)), entries[1..])
  {
    if entries != [] {
      var rest := entries[1..];
      assert Word(entries[0]) == entries[0].0;
      if IsDna(entries[0].0) && AllDna(rest) {
        forall i | 0 <= i < |entries|
          ensures IsDna(Word(entries[i]))
        {
          if i > 0 {
            assert entries[i] == rest[i - 1];
          }
        }
      }
    }
  }

  /** The room for `a + b` inserts is the room for `a` and then for `b`. */
  lemma CostSplit(t: int, h: int, a: nat, b: nat)
    requires Degree(t)
    ensures Cost(t, h, a + b) == Cost(t, h, a) + Cost(t, h, b)
  {
    var B := Budget(t, h);
    assert (a + b) * B == a * B + b * B;
  }

  /** The keys of the entries' windows. */
  function Keys(entries: seq<(seq<char>, Int32)>): (r: set<int>)
  {
    set i | 0 <= i < |entries| :: KeyOf(entries[i])
  }

  /** Entries counted at least once, with different keys, none of which
      the map counts yet. */
  predicate Fresh(m: map<int, Int32>, entries: seq<(seq<char>, Int32)>)
  {
    && (forall i :: 0 <= i < |entries| ==> entries[i].1 >= 1)
    && (forall i :: 0 <= i < |entries| ==> KeyOf(entries[i]) !in m)
    && (forall i, j :: 0 <= i < j < |entries| ==> KeyOf(entries[i]) != KeyOf(entries[j]))
  }

  /** Loading fresh entries counts each key exactly as often as its entry
      says and leaves the counts already there alone. */
  lemma {:induction false} AppliedFresh(m: map<int, Int32>, entries: seq<(seq<char>, Int32)>)
    requires Fresh(m, entries)
    ensures Applied(m, entries).Keys == m.Keys + Keys(entries)
    ensures forall k :: k in m ==> k in Applied(m, entries) && Applied(m, entries)[k] == m[k]
    ensures forall i :: 0 <= i < |entries| ==>
      KeyOf(entries[i]) in Applied(m, entries) && Applied(m, entries)[KeyOf(entries[i])] == entries[i].1
    decreases |entries|
  {
    hide KeyOf, SeqEncode;
    if entries == [] {
      assert Keys(entries) == {};
    } else {
      var rest := entries[1..];
      assert entries == [entries[0]] + rest;
      hide *;
      var m' := FreshRest(m, entries[0], rest);
      AppliedFresh(m', rest);
      KeysStep(entries);
      forall i | 0 <= i < |entries|
        ensures KeyOf(entries[i]) in Applied(m, entries) && Applied(m, entries)[KeyOf(entries[i])] == entries[i].1
      {
        if i > 0 {
          assert entries[i] == rest[i - 1];
        }
      }
    }
  }

  /** After a first entry `e`, the rest are fresh for the map `m'` it
      leaves, in which its key has its count and nothing else changed. */
  lemma FreshRest(m: map<int, Int32>, e: (seq<char>, Int32), rest: seq<(seq<char>, Int32)>) returns (m': map<int, Int32>)
    requires Fresh(m, [e] + rest)
    ensures Applied(m, [e] + rest) == Applied(m', rest)
    ensures Fresh(m', rest)
    ensures m'.Keys == m.Keys + {KeyOf(e)}
    ensures KeyOf(e) in m' && m'[KeyOf(e)] == e.1
    ensures forall j :: j in m ==> j in m' && m'[j] == m[j]
  {
    m' := CountedTimes(m, KeyOf(e), Times(e.1));
    hide Applied, CountedTimes, Fresh, KeyOf, SeqEncode;
    AppliedCons(m, e, rest);
    FreshFirst(m, e, rest);
    CountedTimesValue(m, KeyOf(e), Times(e.1));
    FreshTail(m, e, rest, m');
  }

  /** Loading `[e] + rest` loads `e`, then `rest`. */
  lemma AppliedCons(m: map<int, Int32>, e: (seq<char>, Int32), rest: seq<(seq<char>, Int32)>)
    ensures Applied(m, [e] + rest) == Applied(CountedTimes(m, KeyOf(e), Times(e.1)), rest)
  {
    assert ([e] + rest)[0] == e && ([e] + rest)[1..] == rest;
  }

  /** The first of fresh entries is counted and new. */
  lemma FreshFirst(m: map<int, Int32>, e: (seq<char>, Int32), rest: seq<(seq<char>, Int32)>)
    requires Fresh(m, [e] + rest)
    ensures e.1 >= 1 && Times(e.1) == e.1 && KeyOf(e) !in m
  {
    assert ([e] + rest)[0] == e;
  }

  /** The rest of fresh entries are fresh for any map that adds only the
      first entry's key. */
  lemma FreshTail(m: map<int, Int32>, e: (seq<char>, Int32), rest: seq<(seq<char>, Int32)>, m': map<int, Int32>)
    requires Fresh(m, [e] + rest)
    requires m'.Keys == m.Keys + {KeyOf(e)}
    ensures Fresh(m', rest)
  {
    hide KeyOf, SeqEncode;
    var entries := [e] + rest;
    assert entries[0] == e;
    forall i | 0 <= i < |rest|
      ensures rest[i].1 >= 1 && KeyOf(rest[i]) !in m'
    {
      assert rest[i] == entries[i + 1];
      assert KeyOf(entries[0]) != KeyOf(entries[i + 1]);
    }
    forall i, j | 0 <= i < j < |rest|
      ensures KeyOf(rest[i]) != KeyOf(rest[j])
    {
      assert rest[i] == entries[i + 1];
      assert rest[j] == entries[j + 1];
    }
  }

  /** The keys of the entries are the first entry's and the rest's. */
  lemma KeysStep(entries: seq<(seq<char>, Int32)>)
    requires entries != []
    ensures Keys(entries) == {KeyOf(entries[0])} + Keys(entries[1..])
  {
    hide KeyOf, SeqEncode;
    var rest := entries[1..];
    forall x | x in Keys(entries)
      ensures x in {KeyOf(entries[0])} + Keys(rest)
    {
      var i :| 0 <= i < |entries| && x == KeyOf(entries[i]);
      if i > 0 {
        assert entries[i] == rest[i - 1];
      }
    }
    forall x | x in Keys(rest)
      ensures x in Keys(entries)
    {
      var i :| 0 <= i < |rest| && x == KeyOf(rest[i]);
      assert rest[i] == entries[i + 1];
    }
  }

  /** Different DNA windows of one length have different keys. */
  lemma DistinctKeys(len: int, entries: seq<(seq<char>, Int32)>)
    requires Windows(len, entries) && AllDna(entries)
    requires forall i, j :: 0 <= i < j < |entries| ==> Word(entries[i]) != Word(entries[j])
    ensures forall i, j :: 0 <= i < j < |entries| ==> KeyOf(entries[i]) != KeyOf(entries[j])
  {
    forall i, j | 0 <= i < j < |entries|
      ensures KeyOf(entries[i]) != KeyOf(entries[j])
    {
      if KeyOf(entries[i]) == KeyOf(entries[j]) {
        EncodeInjective(Word(entries[i]), Word(entries[j]));
      }
    }
  }

  /** The loader on a new file: given different DNA windows of one length
      of at most 31, each counted at least once, and a cursor with room for
      every insert, the tree it builds is valid and holds exactly the
      windows' keys, each with its window's count as frequency. */
  lemma LoadNew(t: int, len: int, entries: seq<(seq<char>, Int32)>) returns (tr': BTree, T': Shape)
    requires Degree(t) && Windows(len, entries) && AllDna(entries)
    requires forall i, j :: 0 <= i < j < |entries| ==> Word(entries[i]) != Word(entries[j])
    requires HeaderBytes + NodeBytes(t) + Cost(t, 3 + Inserts(entries), Inserts(entries)) <= MaxInt64
    ensures forall i :: 0 <= i < |entries| ==>
      KeyOf(entries[i]) in Counts(T') && Counts(T')[KeyOf(entries[i])] == entries[i].1
    ensures Counts(T').Keys == Keys(entries)
    ensures Load(Intended, Create(t), len, entries) == Success(tr') && Valid(tr', T')
  {
    var E := Shape(HeaderBytes, [], []);
    CreateValid(t);
    hide *;
    tr', T' := LoadCorrect(Create(t), E, len, entries, 3 + Inserts(entries));
    FreshNew(len, entries);
    AppliedFresh(map[], entries);
  }

  /** Different DNA windows of one length are fresh for an empty map. */
  lemma FreshNew(len: int, entries: seq<(seq<char>, Int32)>)
    requires Windows(len, entries) && AllDna(entries)
    requires forall i, j :: 0 <= i < j < |entries| ==> Word(entries[i]) != Word(entries[j])
    ensures Fresh(map[], entries)
  {
    DistinctKeys(len, entries);
  }

  /** The loop as `main` runs it, with the comparison of `BTree.java:401`
      as written: on the valid degree-2 tree holding the keys 1 to 5, the
      window "cg", whose key is 6, counted once, loads without error, yet
      a search for its key afterwards finds nothing. */
  lemma AsWrittenLoadLosesKey()
    ensures SeqEncode("cg") == 6
    ensures Load(AsWritten, FiveTree(), 2, [("cg", 1)]) == Success(SixTree())
    ensures Search(SixTree(), SeqEncode("cg")) == Success(None)
  {
    var w := "cg";
    assert IsDna(w);
    EncodePack(w);
    assert Pack(w) == 6 by {
      assert w[..1] == "c" && "c"[..0] == [];
    }
    CheckPasses(w);
    AsWrittenLosesKey();
    assert InsertTimes(AsWritten, SixTree(), 6, 0) == Success(SixTree());
    assert LoadEntry(AsWritten, FiveTree(), 2, w, 1) == Success(SixTree());
    assert [(w, 1 as Int32)][1..] == [];
  }
}
