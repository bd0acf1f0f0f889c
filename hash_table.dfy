/**
 * The `Hash` class of hash.cpp: a fixed array of buckets with separate
 * chaining, and its counters, updated in place. Each method is proved to
 * follow the matching `TableModel` or `Render` function.
 */
module HashTable {
  import opened HashFunction
  import opened TableModel
  import opened Render

  class Hash {
    /** `HASH_TABLE_SIZE`. */
    const capacity: nat
    /** `hashTable`: one list of strings per bucket. */
    const hashTable: array<Chain>
    var collisions: nat
    var longestList: nat
    /** The source's `double`, here the integer count that insert and remove step. */
    var runningAvgListLength: int

    /** The fields as a `TableModel.State`. */
    ghost function Model(): State
      reads this, hashTable
    {
      State(hashTable[..], collisions, longestList, runningAvgListLength)
    }

    ghost predicate Valid()
      reads this, hashTable
    {
      capacity > 0 && hashTable.Length == capacity && Consistent(Model())
    }

    /** `Hash::Hash`: every bucket empty and every counter zero. */
    constructor (capacity: nat)
      requires capacity > 0
      ensures Valid() && fresh(hashTable)
      ensures Model() == Fresh(capacity)
      ensures collisions == 0 && longestList == 0 && runningAvgListLength == 0
    {
      this.capacity := capacity;
      hashTable := new Chain[capacity](_ => []);
      collisions := 0;
      longestList := 0;
      runningAvgListLength := 0;
      new;
      assert hashTable[..] == Fresh(capacity).buckets;
      EmptyTotal(capacity);
    }

    /** One turn of the `processFile` loop: hash the token, count a collision, push it, step the counters. */
    method Insert(token: Bytes)
      requires Valid()
      modifies this, hashTable
      ensures Valid()
      ensures Model() == Inserted(old(Model()), token)
      ensures var h := HashIndex(token, capacity);
        && hashTable[h] == old(hashTable[h]) + [token]
        && (forall i :: 0 <= i < capacity && i != h ==> hashTable[i] == old(hashTable[i]))
        && collisions == old(collisions) + (if old(hashTable[h]) != [] then 1 else 0)
        && runningAvgListLength == old(runningAvgListLength) + 1
      ensures longestList == LegacyLongest(old(longestList), |hashTable[HashIndex(token, capacity)]|)
    {
      var index := Hf(token, capacity);
      if |hashTable[index]| != 0 {
        collisions := collisions + 1;
      }
      hashTable[index] := hashTable[index] + [token];
      runningAvgListLength := runningAvgListLength + 1;
      if |hashTable[index]| < longestList {
        longestList := longestList + 1;
      }
      InsertConsistent(old(Model()), token);
    }

    /** `processFile`, with the file replaced by the sequence of tokens it yields. */
    method ProcessFile(tokens: seq<Bytes>)
      requires Valid()
      modifies this, hashTable
      ensures Valid()
      ensures Model() == Load(old(Model()), tokens)
      ensures old(longestList) == 0 ==> longestList == 0
    {
      for k := 0 to |tokens|
        invariant Valid()
        invariant Model() == Load(old(Model()), tokens[..k])
        invariant old(longestList) == 0 ==> longestList == 0
      {
        assert tokens[..k + 1][..k] == tokens[..k];
        Insert(tokens[k]);
      }
      assert tokens[..|tokens|] == tokens;
    }

    /** `search`: scan the token's bucket for an equal string. */
    method Search(input: Bytes) returns (found: bool)
      requires Valid()
      ensures found <==> input in hashTable[HashIndex(input, capacity)]
      ensures found <==> exists i :: 0 <= i < capacity && input in hashTable[i]
    {
      var index := Hf(input, capacity);
      var chain := hashTable[index];
      found := false;
      var k := 0;
      while k < |chain|
        invariant 0 <= k <= |chain|
        invariant input !in chain[..k]
      {
        if chain[k] == input {
          found := true;
          break;
        }
        assert chain[..k + 1] == chain[..k] + [chain[k]];
        k := k + 1;
      }
      assert chain[..|chain|] == chain;
      SearchIsMembership(hashTable[..], input);
    }

    /** `remove`: erase the first equal string in the token's bucket, if any, and step the counter down. */
    method Remove(input: Bytes)
      requires Valid()
      modifies this, hashTable
      ensures Valid()
      ensures Model() == Removed(old(Model()), input)
      ensures longestList == old(longestList) && collisions == old(collisions)
    {
      var index := Hf(input, capacity);
      var chain := hashTable[index];
      var k := 0;
      while k < |chain|
        invariant 0 <= k <= |chain|
        invariant input !in chain[..k]
        invariant unchanged(this, hashTable)
      {
        if chain[k] == input {
          RemoveFirstAt(chain, input, k);
          RemoveConsistent(Model(), input);
          hashTable[index] := chain[..k] + chain[k + 1..];
          runningAvgListLength := runningAvgListLength - 1;
          return;
        }
        assert chain[..k + 1] == chain[..k] + [chain[k]];
        k := k + 1;
      }
      assert chain[..|chain|] == chain;
    }

    /** The bucket-size scan of `printStats`: the total of the sizes and the number of non-empty buckets. */
    method StatsScan() returns (sum: nat, nonEmpty: nat)
      requires Valid()
      ensures sum == Total(hashTable[..]) && nonEmpty == Occupied(hashTable[..])
      ensures sum == runningAvgListLength
      ensures nonEmpty <= sum && nonEmpty <= capacity
      ensures nonEmpty == 0 <==> forall i :: 0 <= i < capacity ==> hashTable[i] == []
    {
      sum := 0;
      nonEmpty := 0;
      for i := 0 to capacity
        invariant sum == Total(hashTable[..i]) && nonEmpty == Occupied(hashTable[..i])
        invariant nonEmpty == 0 <==> forall j :: 0 <= j < i ==> hashTable[j] == []
      {
        TotalPrefix(hashTable[..], i);
        assert hashTable[..][..i] == hashTable[..i] && hashTable[..][..i + 1] == hashTable[..i + 1];
        if |hashTable[i]| != 0 {
          sum := sum + |hashTable[i]|;
          nonEmpty := nonEmpty + 1;
        }
      }
      assert hashTable[..capacity] == hashTable[..];
      OccupiedBounds(hashTable[..]);
    }

    /** The line `print` and `output` write for bucket `i`. */
    method RenderBucket(i: nat) returns (line: Bytes)
      requires Valid() && i < capacity
      ensures line == Line(i, hashTable[i])
    {
      var chain := hashTable[i];
      line := Decimal(i + 1) + [Colon, Tab];
      ghost var head := line;
      var ifNotLast := 0;
      for k := 0 to |chain|
        invariant ifNotLast == k
        invariant line == head + Join(chain[..k])
      {
        assert chain[..k + 1] == chain[..k] + [chain[k]];
        if k > 0 {
          JoinSnoc(chain[..k], chain[k]);
        } else {
          assert chain[..1] == [chain[0]];
        }
        line := line + (if ifNotLast > 0 then Separator else []) + chain[k];
        ifNotLast := ifNotLast + 1;
      }
      assert chain[..|chain|] == chain;
    }

    /** What `print` and `output` write: one line per bucket, in bucket order. */
    method Print() returns (lines: seq<Bytes>)
      requires Valid()
      ensures |lines| == capacity
      ensures forall i :: 0 <= i < capacity ==> lines[i] == Line(i, hashTable[i])
    {
      lines := [];
      for i := 0 to capacity
        invariant |lines| == i
        invariant forall j :: 0 <= j < i ==> lines[j] == Line(j, hashTable[j])
      {
        var line := RenderBucket(i);
        lines := lines + [line];
      }
    }
  }
}
