/**
 * The state of the hash table as a value: the bucket array and the three
 * counters, with the operations of hash.cpp as functions from the old state
 * to the new one. The class in hash_table.dfy is proved to follow them.
 */
module TableModel {
  import opened HashFunction

  /** One bucket: a `std::list<string>`, in insertion order. */
  type Chain = seq<Bytes>

  /**
   * The fields of `Hash`. `runningAvgListLength` is a `double` in the source;
   * here it is the integer that insert and remove step by one.
   */
  datatype State = State(buckets: seq<Chain>, collisions: nat, longestList: nat, runningAvgListLength: int)

  /** The bucket `s` hashes to. */
  function BucketOf(t: seq<Chain>, s: Bytes): (r: nat)
    requires |t| > 0
    ensures r < |t|
  {
    HashIndex(s, |t|)
  }

  /** Every stored string sits in the bucket its hash names. */
  predicate Placed(t: seq<Chain>)
  {
    |t| > 0 && forall i, x :: 0 <= i < |t| && x in t[i] ==> HashIndex(x, |t|) == i
  }

  /** Number of strings stored: the sum of the bucket sizes. */
  function Total(t: seq<Chain>): nat
  {
    if t == [] then 0 else Total(t[..|t| - 1]) + |t[|t| - 1]|
  }

  /** Number of non-empty buckets. */
  function Occupied(t: seq<Chain>): nat
  {
    if t == [] then 0 else Occupied(t[..|t| - 1]) + (if t[|t| - 1] != [] then 1 else 0)
  }

  /** What insert and remove keep true of every reachable state. */
  predicate Consistent(st: State)
  {
    Placed(st.buckets) && st.runningAvgListLength == Total(st.buckets)
  }

  /** The state the constructor builds: `capacity` empty buckets, counters zero. */
  function Fresh(capacity: nat): (st: State)
    requires capacity > 0
    ensures |st.buckets| == capacity
    ensures forall i :: 0 <= i < capacity ==> st.buckets[i] == []
  {
    State(seq(capacity, _ => []), 0, 0, 0)
  }

  /** The literal update of `longestList` after a push: grow only when the list is SHORTER. */
  function LegacyLongest(longestList: nat, size: nat): nat
  {
    if size < longestList then longestList + 1 else longestList
  }

  /** One turn of the `processFile` loop on the token `s`. */
  function Inserted(st: State, s: Bytes): (r: State)
    requires |st.buckets| > 0
    ensures |r.buckets| == |st.buckets|
  {
    var h := BucketOf(st.buckets, s);
    var chain := st.buckets[h] + [s];
    State(st.buckets[h := chain],
          st.collisions + (if st.buckets[h] != [] then 1 else 0),
          LegacyLongest(st.longestList, |chain|),
          st.runningAvgListLength + 1)
  }

  /** A chain without the first occurrence of `s`. */
  function RemoveFirst(c: Chain, s: Bytes): Chain
  {
    if c == [] then []
    else if c[0] == s then c[1..]
    else [c[0]] + RemoveFirst(c[1..], s)
  }

  /** `remove`: drop the first `s` from its bucket, if there is one. */
  function Removed(st: State, s: Bytes): (r: State)
    requires |st.buckets| > 0
    ensures |r.buckets| == |st.buckets|
  {
    var h := BucketOf(st.buckets, s);
    if s in st.buckets[h] then
      State(st.buckets[h := RemoveFirst(st.buckets[h], s)],
            st.collisions, st.longestList, st.runningAvgListLength - 1)
    else st
  }

  /** `search`: is `s` in the bucket it hashes to. */
  predicate Contains(t: seq<Chain>, s: Bytes)
    requires |t| > 0
  {
    s in t[BucketOf(t, s)]
  }

  /** `processFile` over a token sequence: insert each token in order. */
  function Load(st: State, tokens: seq<Bytes>): (r: State)
    requires |st.buckets| > 0
    ensures |r.buckets| == |st.buckets|
  {
    if tokens == [] then st else Inserted(Load(st, tokens[..|tokens| - 1]), tokens[|tokens| - 1])
  }

  /** The tokens that hash to bucket `i` of `n`, in their order. */
  function Selected(tokens: seq<Bytes>, i: nat, n: nat): seq<Bytes>
    requires n > 0
  {
    if tokens == [] then []
    else
      var last := tokens[|tokens| - 1];
      Selected(tokens[..|tokens| - 1], i, n) + (if HashIndex(last, n) == i then [last] else [])
  }

  /** An operation a client applies to the table. */
  datatype Op = Insert(token: Bytes) | Remove(token: Bytes)

  /** The state after applying `ops` in order. */
  function Replay(st: State, ops: seq<Op>): (r: State)
    requires |st.buckets| > 0
    ensures |r.buckets| == |st.buckets|
  {
    if ops == [] then st
    else
      var prev := Replay(st, ops[..|ops| - 1]);
      match ops[|ops| - 1]
      case Insert(s) => Inserted(prev, s)
      case Remove(s) => Removed(prev, s)
  }

  // ---------------------------------------------------------------------
  // First-occurrence removal

  /** Removing at the first match `k` leaves everything before and after it. */
  lemma {:induction false} RemoveFirstAt(c: Chain, s: Bytes, k: nat)
    requires k < |c| && c[k] == s && s !in c[..k]
    ensures RemoveFirst(c, s) == c[..k] + c[k + 1..]
  {
    if k > 0 {
      assert c[0] in c[..k];
      assert c[1..][..k - 1] == c[1..k];
      RemoveFirstAt(c[1..], s, k - 1);
      assert [c[0]] + c[1..k] == c[..k];
    }
  }

  /** Removing a string that is not there changes nothing. */
  lemma {:induction false} RemoveFirstAbsent(c: Chain, s: Bytes)
    requires s !in c
    ensures RemoveFirst(c, s) == c
  {
    if c != [] {
      assert s !in c[1..] by { assert forall x :: x in c[1..] ==> x in c; }
      RemoveFirstAbsent(c[1..], s);
    }
  }

  /** Removal takes away exactly one copy of `s` when there is one, and nothing else. */
  lemma {:induction false} RemoveFirstMultiset(c: Chain, s: Bytes)
    ensures multiset(RemoveFirst(c, s)) == multiset(c) - multiset{s}
  {
    if c != [] {
      assert c == [c[0]] + c[1..];
      RemoveFirstMultiset(c[1..], s);
    }
  }

  /** Removal shortens the chain by one exactly when `s` is in it. */
  lemma RemoveFirstLength(c: Chain, s: Bytes)
    ensures |RemoveFirst(c, s)| == if s in c then |c| - 1 else |c|
  {
    RemoveFirstMultiset(c, s);
    assert |multiset(RemoveFirst(c, s))| == |RemoveFirst(c, s)|;
    if s in c {
      assert s in multiset(c);
    } else {
      assert s !in multiset(c);
      assert multiset(c) - multiset{s} == multiset(c);
    }
  }

  /** A later duplicate survives the removal of the first one. */
  lemma DuplicateSurvives(c: Chain, s: Bytes)
    requires multiset(c)[s] >= 2
    ensures s in RemoveFirst(c, s)
  {
    RemoveFirstMultiset(c, s);
    assert s in multiset(RemoveFirst(c, s));
  }

  /** Inserting a string that was absent and removing it again restores the chain. */
  lemma {:induction false} RemoveFirstAfterAppend(c: Chain, s: Bytes)
    requires s !in c
    ensures RemoveFirst(c + [s], s) == c
  {
    if c != [] {
      assert (c + [s])[1..] == c[1..] + [s];
      assert s !in c[1..] by { assert forall x :: x in c[1..] ==> x in c; }
      RemoveFirstAfterAppend(c[1..], s);
    }
  }

  // ---------------------------------------------------------------------
  // Sizes

  /** Replacing bucket `i` changes the total by the difference in that bucket's size. */
  lemma {:induction false} TotalUpdate(t: seq<Chain>, i: nat, c: Chain)
    requires i < |t|
    ensures Total(t[i := c]) == Total(t) - |t[i]| + |c|
    ensures Occupied(t[i := c]) == Occupied(t) - (if t[i] != [] then 1 else 0) + (if c != [] then 1 else 0)
    decreases |t|
  {
    var n := |t| - 1;
    var u := t[i := c];
    assert u[..n] == if i < n then t[..n][i := c] else t[..n];
    if i < n {
      TotalUpdate(t[..n], i, c);
    }
  }

  /** There are no more non-empty buckets than buckets, nor than strings. */
  lemma {:induction false} OccupiedBounds(t: seq<Chain>)
    ensures Occupied(t) <= |t| && Occupied(t) <= Total(t)
    decreases |t|
  {
    if t != [] {
      OccupiedBounds(t[..|t| - 1]);
    }
  }

  /** The total is the sum of any prefix's total and the next bucket's size. */
  lemma TotalPrefix(t: seq<Chain>, i: nat)
    requires i < |t|
    ensures Total(t[..i + 1]) == Total(t[..i]) + |t[i]|
    ensures Occupied(t[..i + 1]) == Occupied(t[..i]) + (if t[i] != [] then 1 else 0)
  {
    assert t[..i + 1][..i] == t[..i];
  }

  // ---------------------------------------------------------------------
  // Insert, remove and search on states

  /** Insert appends `s` at the end of its bucket and leaves every other bucket unchanged. */
  lemma InsertAppends(st: State, s: Bytes)
    requires |st.buckets| > 0
    ensures var h := HashIndex(s, |st.buckets|);
      && Inserted(st, s).buckets[h] == st.buckets[h] + [s]
      && forall i :: 0 <= i < |st.buckets| && i != h ==> Inserted(st, s).buckets[i] == st.buckets[i]
  {
  }

  /** Insert counts a collision exactly when its bucket was already occupied. */
  lemma InsertCollision(st: State, s: Bytes)
    requires |st.buckets| > 0
    ensures Inserted(st, s).collisions == st.collisions + 1 <==> st.buckets[HashIndex(s, |st.buckets|)] != []
    ensures Inserted(st, s).collisions == st.collisions <==> st.buckets[HashIndex(s, |st.buckets|)] == []
  {
  }

  /** Insert keeps the placement invariant and the counter equal to the number stored. */
  lemma InsertConsistent(st: State, s: Bytes)
    requires |st.buckets| > 0 && Consistent(st)
    ensures Consistent(Inserted(st, s))
    ensures Total(Inserted(st, s).buckets) == Total(st.buckets) + 1
  {
    var h := BucketOf(st.buckets, s);
    TotalUpdate(st.buckets, h, st.buckets[h] + [s]);
  }

  /** Remove keeps the placement invariant and the counter equal to the number stored. */
  lemma RemoveConsistent(st: State, s: Bytes)
    requires |st.buckets| > 0 && Consistent(st)
    ensures Consistent(Removed(st, s))
    ensures Total(Removed(st, s).buckets) == Total(st.buckets) - (if Contains(st.buckets, s) then 1 else 0)
  {
    var h := BucketOf(st.buckets, s);
    var c := st.buckets[h];
    if s in c {
      var r := RemoveFirst(c, s);
      RemoveFirstLength(c, s);
      TotalUpdate(st.buckets, h, r);
      RemoveFirstMultiset(c, s);
      forall x | x in r ensures x in c {
        assert x in multiset(r);
      }
    }
  }

  /**
   * Remove deletes only the first occurrence of a present `s`, and decrements
   * the running counter; every other bucket and counter stays.
   */
  lemma RemoveDeletesFirst(st: State, s: Bytes, k: nat)
    requires |st.buckets| > 0
    requires var c := st.buckets[HashIndex(s, |st.buckets|)]; k < |c| && c[k] == s && s !in c[..k]
    ensures var h := HashIndex(s, |st.buckets|); var c := st.buckets[h];
      && Removed(st, s).buckets[h] == c[..k] + c[k + 1..]
      && (forall i :: 0 <= i < |st.buckets| && i != h ==> Removed(st, s).buckets[i] == st.buckets[i])
      && Removed(st, s).runningAvgListLength == st.runningAvgListLength - 1
      && Removed(st, s).collisions == st.collisions
  {
    var c := st.buckets[HashIndex(s, |st.buckets|)];
    RemoveFirstAt(c, s, k);
  }

  /** Removing an absent string leaves the whole state as it was. */
  lemma RemoveAbsent(st: State, s: Bytes)
    requires |st.buckets| > 0 && !Contains(st.buckets, s)
    ensures Removed(st, s) == st
  {
  }

  /** Search finds a string just inserted. */
  lemma SearchAfterInsert(st: State, s: Bytes)
    requires |st.buckets| > 0
    ensures Contains(Inserted(st, s).buckets, s)
  {
    assert s in st.buckets[BucketOf(st.buckets, s)] + [s];
  }

  /** For a string not yet stored, insert then remove gives back the same buckets and search fails. */
  lemma InsertThenRemove(st: State, s: Bytes)
    requires |st.buckets| > 0 && !Contains(st.buckets, s)
    ensures Removed(Inserted(st, s), s).buckets == st.buckets
    ensures !Contains(Removed(Inserted(st, s), s).buckets, s)
  {
    var h := BucketOf(st.buckets, s);
    RemoveFirstAfterAppend(st.buckets[h], s);
    assert s in st.buckets[h] + [s];
    assert st.buckets[h := st.buckets[h]] == st.buckets;
  }

  /** A string inserted twice is still found after one removal. */
  lemma SearchAfterRemovingOneOfTwo(st: State, s: Bytes)
    requires |st.buckets| > 0
    ensures Contains(Removed(Inserted(Inserted(st, s), s), s).buckets, s)
  {
    var h := BucketOf(st.buckets, s);
    var c := st.buckets[h] + [s] + [s];
    assert Inserted(Inserted(st, s), s).buckets[h] == c;
    assert multiset(c)[s] >= 2 by {
      assert c == st.buckets[h] + [s, s];
    }
    DuplicateSurvives(c, s);
  }

  /** Under the placement invariant, search reports whether `s` is stored in any bucket. */
  lemma SearchIsMembership(t: seq<Chain>, s: Bytes)
    requires Placed(t)
    ensures Contains(t, s) <==> exists i :: 0 <= i < |t| && s in t[i]
  {
    if exists i :: 0 <= i < |t| && s in t[i] {
      var i :| 0 <= i < |t| && s in t[i];
      assert HashIndex(s, |t|) == i;
    }
  }

  // ---------------------------------------------------------------------
  // Loading a token sequence

  /** After loading, bucket `i` is its old contents followed by the tokens that hash to `i`, in order. */
  lemma {:induction false} LoadBuckets(st: State, tokens: seq<Bytes>, i: nat)
    requires |st.buckets| > 0 && i < |st.buckets|
    ensures Load(st, tokens).buckets[i] == st.buckets[i] + Selected(tokens, i, |st.buckets|)
    decreases |tokens|
  {
    if tokens != [] {
      var init := tokens[..|tokens| - 1];
      LoadBuckets(st, init, i);
    }
  }

  /** Loading counts one collision per token that lands in an already occupied bucket. */
  lemma {:induction false} LoadCollisions(st: State, tokens: seq<Bytes>)
    requires |st.buckets| > 0
    ensures var r := Load(st, tokens);
      r.collisions - st.collisions == (Total(r.buckets) - Occupied(r.buckets)) - (Total(st.buckets) - Occupied(st.buckets))
    ensures Total(Load(st, tokens).buckets) == Total(st.buckets) + |tokens|
    decreases |tokens|
  {
    if tokens != [] {
      var prev := Load(st, tokens[..|tokens| - 1]);
      LoadCollisions(st, tokens[..|tokens| - 1]);
      var s := tokens[|tokens| - 1];
      var h := BucketOf(prev.buckets, s);
      TotalUpdate(prev.buckets, h, prev.buckets[h] + [s]);
      OccupiedBounds(prev.buckets);
    }
  }

  /** The selected tokens are exactly the tokens that hash to bucket `i`. */
  lemma {:induction false} SelectedMembers(tokens: seq<Bytes>, i: nat, n: nat, x: Bytes)
    requires n > 0
    ensures x in Selected(tokens, i, n) <==> x in tokens && HashIndex(x, n) == i
    decreases |tokens|
  {
    if tokens != [] {
      var init := tokens[..|tokens| - 1];
      SelectedMembers(init, i, n, x);
      assert tokens == init + [tokens[|tokens| - 1]];
    }
  }

  /** After loading a fresh table, search finds a string exactly when it was among the tokens. */
  lemma LoadedSearch(capacity: nat, tokens: seq<Bytes>, s: Bytes)
    requires capacity > 0
    ensures Contains(Load(Fresh(capacity), tokens).buckets, s) <==> s in tokens
  {
    var h := HashIndex(s, capacity);
    LoadBuckets(Fresh(capacity), tokens, h);
    SelectedMembers(tokens, h, capacity, s);
  }

  /** Buckets that are empty in the same places give the same number of non-empty buckets. */
  lemma {:induction false} OccupiedSameShape(t: seq<Chain>, u: seq<Chain>)
    requires |t| == |u|
    requires forall i :: 0 <= i < |t| ==> (t[i] == [] <==> u[i] == [])
    ensures Occupied(t) == Occupied(u)
    decreases |t|
  {
    if t != [] {
      OccupiedSameShape(t[..|t| - 1], u[..|u| - 1]);
    }
  }

  /** A fresh table's bucket `j` after loading holds exactly the tokens that hash to `j`. */
  lemma LoadFreshBucket(capacity: nat, tokens: seq<Bytes>, j: nat)
    requires capacity > 0 && j < capacity
    ensures Load(Fresh(capacity), tokens).buckets[j] == Selected(tokens, j, capacity)
  {
    LoadBuckets(Fresh(capacity), tokens, j);
  }

  /**
   * Loading the same tokens twice into a fresh table doubles every bucket,
   * and the second load counts one more collision for every token.
   */
  lemma LoadTwiceDoubles(capacity: nat, tokens: seq<Bytes>, i: nat)
    requires capacity > 0 && i < capacity
    ensures var once := Load(Fresh(capacity), tokens);
      Load(once, tokens).buckets[i] == once.buckets[i] + once.buckets[i]
    ensures var once := Load(Fresh(capacity), tokens);
      Load(once, tokens).collisions == once.collisions + |tokens|
  {
    var once := Load(Fresh(capacity), tokens);
    var twice := Load(once, tokens);
    forall j | 0 <= j < capacity
      ensures twice.buckets[j] == once.buckets[j] + once.buckets[j]
    {
      LoadFreshBucket(capacity, tokens, j);
      LoadBuckets(once, tokens, j);
    }
    OccupiedSameShape(twice.buckets, once.buckets);
    LoadCollisions(once, tokens);
    var occ := Occupied(once.buckets);
    var tot := Total(once.buckets);
    assert Occupied(twice.buckets) == occ;
    assert Total(twice.buckets) == tot + |tokens|;
    assert twice.collisions - once.collisions == (tot + |tokens| - occ) - (tot - occ);
  }

  /** Loading from a consistent state stays consistent. */
  lemma {:induction false} LoadConsistent(st: State, tokens: seq<Bytes>)
    requires |st.buckets| > 0 && Consistent(st)
    ensures Consistent(Load(st, tokens))
    decreases |tokens|
  {
    if tokens != [] {
      LoadConsistent(st, tokens[..|tokens| - 1]);
      InsertConsistent(Load(st, tokens[..|tokens| - 1]), tokens[|tokens| - 1]);
    }
  }

  // ---------------------------------------------------------------------
  // Any sequence of operations

  /**
   * From the fresh table, every sequence of inserts and removes keeps the
   * placement invariant, keeps the running counter equal to the number of
   * strings stored, and never moves `longestList` off 0.
   */
  lemma {:induction false} ReplayFromFresh(capacity: nat, ops: seq<Op>)
    requires capacity > 0
    ensures Consistent(Replay(Fresh(capacity), ops))
    ensures Replay(Fresh(capacity), ops).longestList == 0
    decreases |ops|
  {
    if ops != [] {
      var prev := Replay(Fresh(capacity), ops[..|ops| - 1]);
      ReplayFromFresh(capacity, ops[..|ops| - 1]);
      match ops[|ops| - 1]
      case Insert(s) => InsertConsistent(prev, s);
      case Remove(s) => RemoveConsistent(prev, s);
    } else {
      assert Total(Fresh(capacity).buckets) == 0 by { EmptyTotal(capacity); }
    }
  }

  /** A table of empty buckets stores nothing. */
  lemma {:induction false} EmptyTotal(n: nat)
    ensures Total(seq(n, _ => [])) == 0 && Occupied(seq(n, _ => [])) == 0
  {
    if n > 0 {
      var t: seq<Chain> := seq(n, _ => []);
      assert t[..n - 1] == seq(n - 1, _ => []);
      EmptyTotal(n - 1);
    }
  }

  /** The `<` guard misses even the first chain: after one insert a bucket holds 1 string while `longestList` is 0. */
  lemma LongestListMissesFirstChain(capacity: nat, s: Bytes)
    requires capacity > 0
    ensures Inserted(Fresh(capacity), s).longestList == 0
    ensures |Inserted(Fresh(capacity), s).buckets[HashIndex(s, capacity)]| == 1
  {
  }

  /**
   * Seven buckets, tokens "a", "h", "c": "a" and "h" both hash to bucket 3,
   * "c" to bucket 4, so bucket 3 keeps their order and one collision is counted.
   */
  lemma SevenBucketScenario()
    ensures var r := Load(Fresh(7), [[0x61], [0x68], [0x63]]);
      && r.buckets[3] == [[0x61], [0x68]]
      && r.buckets[4] == [[0x63]]
      && r.collisions == 1
  {
    assert HashIndex([0x61], 7) == 3;
    assert HashIndex([0x68], 7) == 3;
    assert HashIndex([0x63], 7) == 4;
    var tokens: seq<Bytes> := [[0x61], [0x68], [0x63]];
    var e := Fresh(7);
    assert tokens[..2] == [[0x61], [0x68]] && tokens[..1] == [[0x61]] && tokens[..2][..1] == tokens[..1];
    assert tokens[..1][..0] == [] && Load(e, []) == e;
    var s1 := Load(e, tokens[..1]);
    assert s1 == Inserted(e, [0x61]);
    assert s1.buckets[3] == [[0x61]] && s1.collisions == 0;
    var s2 := Load(e, tokens[..2]);
    assert s2 == Inserted(s1, [0x68]);
    assert s2.buckets[3] == [[0x61], [0x68]] && s2.buckets[4] == [] && s2.collisions == 1;
    assert Load(e, tokens) == Inserted(s2, [0x63]);
  }
}
