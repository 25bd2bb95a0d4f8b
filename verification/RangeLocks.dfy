/** The range-lock tracker of an object: write ranges are exclusive, read ranges may share. */
module RangeLocks {

  const INT32_MAX := 0x7fff_ffff

  datatype Mode = ReadMode | WriteMode

  datatype Range = Range(client: nat, id: int, offset: nat, size: nat, mode: Mode)

  predicate Overlap(offset1: nat, size1: nat, offset2: nat, size2: nat) {
    (offset1 >= offset2 && offset1 < offset2 + size2) || (offset2 >= offset1 && offset2 < offset1 + size1)
  }

  ghost predicate ShareByte(offset1: nat, size1: nat, offset2: nat, size2: nat) {
    exists b: nat :: InRange(b, offset1, size1) && InRange(b, offset2, size2)
  }

  predicate InRange(b: nat, offset: nat, size: nat) { offset <= b < offset + size }

  /** `Overlap` holds exactly for ranges with a common byte and for an empty range that starts inside the other one. */
  lemma OverlapExact(offset1: nat, size1: nat, offset2: nat, size2: nat)
    ensures Overlap(offset1, size1, offset2, size2) <==>
              || ShareByte(offset1, size1, offset2, size2)
              || (size1 == 0 && InRange(offset1, offset2, size2))
              || (size2 == 0 && InRange(offset2, offset1, size1))
  {
    if Overlap(offset1, size1, offset2, size2) && size1 > 0 && size2 > 0 {
      var b := if offset1 >= offset2 then offset1 else offset2;
      assert InRange(b, offset1, size1) && InRange(b, offset2, size2);
    }
  }

  predicate Conflict(r: Range, offset: nat, size: nat, mode: Mode) {
    Overlap(offset, size, r.offset, r.size) && (mode != r.mode || r.mode.WriteMode?)
  }

  /** A conflict in terms of bytes: the ranges meet, and one of the two is for writing. */
  lemma ConflictExact(r: Range, offset: nat, size: nat, mode: Mode)
    ensures Conflict(r, offset, size, mode) <==>
              && (|| ShareByte(offset, size, r.offset, r.size)
                  || (size == 0 && InRange(offset, r.offset, r.size))
                  || (r.size == 0 && InRange(r.offset, offset, size)))
              && (mode.WriteMode? || r.mode.WriteMode?)
  {
    hide ShareByte, Overlap;
    OverlapExact(offset, size, r.offset, r.size);
  }

  /** Any two registered ranges are disjoint or both read-only. */
  ghost predicate Exclusive(ranges: seq<Range>) {
    forall i, j | 0 <= i < j < |ranges| :: !Conflict(ranges[i], ranges[j].offset, ranges[j].size, ranges[j].mode)
  }

  ghost predicate IdsOk(ranges: seq<Range>, nextId: int) {
    && (forall i | 0 <= i < |ranges| :: 0 < ranges[i].id < nextId)
    && (forall i, j | 0 <= i < j < |ranges| :: ranges[i].id < ranges[j].id)
  }

  /** The promise in terms of bytes: a byte registered for writing is registered once. */
  lemma WritersExclusive(ranges: seq<Range>, i: nat, j: nat, b: nat)
    requires Exclusive(ranges) && i < |ranges| && j < |ranges| && i != j
    requires InRange(b, ranges[i].offset, ranges[i].size) && InRange(b, ranges[j].offset, ranges[j].size)
    ensures ranges[i].mode.ReadMode? && ranges[j].mode.ReadMode?
  {
    var x, y := if i < j then i else j, if i < j then j else i;
    assert !Conflict(ranges[x], ranges[y].offset, ranges[y].size, ranges[y].mode);
  }

  function Without(ranges: seq<Range>, client: nat): seq<Range> {
    if ranges == [] then []
    else
      var rest := Without(ranges[..|ranges| - 1], client);
      var last := ranges[|ranges| - 1];
      if last.client == client then rest else rest + [last]
  }

  /** Disconnecting removes the client's ranges and no others. */
  lemma {:induction false} WithoutContents(ranges: seq<Range>, client: nat, r: Range)
    ensures r in Without(ranges, client) <==> r in ranges && r.client != client
  {
    if ranges != [] {
      WithoutContents(ranges[..|ranges| - 1], client, r);
      assert ranges == ranges[..|ranges| - 1] + [ranges[|ranges| - 1]];
    }
  }

  lemma {:induction false} WithoutKeeps(ranges: seq<Range>, client: nat, nextId: int)
    requires Exclusive(ranges) && IdsOk(ranges, nextId)
    ensures Exclusive(Without(ranges, client)) && IdsOk(Without(ranges, client), nextId)
  {
    if ranges != [] {
      var n := |ranges| - 1;
      WithoutKeeps(ranges[..n], client, nextId);
      var rest := Without(ranges[..n], client);
      forall i | 0 <= i < |rest|
        ensures !Conflict(rest[i], ranges[n].offset, ranges[n].size, ranges[n].mode) && rest[i].id < ranges[n].id
      {
        WithoutContents(ranges[..n], client, rest[i]);
        var j :| 0 <= j < n && ranges[..n][j] == rest[i];
        assert ranges[j] == rest[i];
      }
    }
  }

  class ConsistencyTracker {
    var ranges: seq<Range>
    var nextId: int

    ghost predicate Valid()
      reads this
    {
      0 < nextId && Exclusive(ranges) && IdsOk(ranges, nextId)
    }

    constructor ()
      ensures Valid() && ranges == [] && nextId == 1
    {
      ranges, nextId := [], 1;
    }

    /** Looks for a registered range that meets the given one, one of the two being for writing. */
    method HasCollision(offset: nat, size: nat, mode: Mode) returns (r: bool)
      ensures r <==> exists i :: 0 <= i < |ranges| && Conflict(ranges[i], offset, size, mode)
      ensures r <==> exists i ::
                  && 0 <= i < |ranges|
                  && (|| ShareByte(offset, size, ranges[i].offset, ranges[i].size)
                      || (size == 0 && InRange(offset, ranges[i].offset, ranges[i].size))
                      || (ranges[i].size == 0 && InRange(ranges[i].offset, offset, size)))
                  && (mode.WriteMode? || ranges[i].mode.WriteMode?)
    {
      hide ShareByte;
      forall i | 0 <= i < |ranges|
        ensures Conflict(ranges[i], offset, size, mode) <==>
                  && (|| ShareByte(offset, size, ranges[i].offset, ranges[i].size)
                      || (size == 0 && InRange(offset, ranges[i].offset, ranges[i].size))
                      || (ranges[i].size == 0 && InRange(ranges[i].offset, offset, size)))
                  && (mode.WriteMode? || ranges[i].mode.WriteMode?)
      {
        ConflictExact(ranges[i], offset, size, mode);
      }
      for i := 0 to |ranges|
        invariant forall j | 0 <= j < i :: !Conflict(ranges[j], offset, size, mode)
      {
        if Overlap(offset, size, ranges[i].offset, ranges[i].size)
            && (mode != ranges[i].mode || ranges[i].mode.WriteMode?) {
          return true;
        }
      }
      return false;
    }

    /**
      Registers a range unless it conflicts with a registered one, in which case -1 is returned and nothing changes.
     */
    method RegisterRange(client: nat, offset: nat, size: nat, mode: Mode) returns (id: int)
      requires Valid() && nextId < INT32_MAX
      modifies this
      ensures Valid()
      ensures id == -1 <==> exists i ::
                  && 0 <= i < |old(ranges)|
                  && (|| ShareByte(offset, size, old(ranges)[i].offset, old(ranges)[i].size)
                      || (size == 0 && InRange(offset, old(ranges)[i].offset, old(ranges)[i].size))
                      || (old(ranges)[i].size == 0 && InRange(old(ranges)[i].offset, offset, size)))
                  && (mode.WriteMode? || old(ranges)[i].mode.WriteMode?)
      ensures mode.ReadMode? && (forall i | 0 <= i < |old(ranges)| :: old(ranges)[i].mode.ReadMode?) ==> id != -1
      ensures id == -1 ==> ranges == old(ranges) && nextId == old(nextId)
      ensures id != -1 ==> id == old(nextId) && nextId == old(nextId) + 1
                           && ranges == old(ranges) + [Range(client, id, offset, size, mode)]
      ensures id != -1 ==> forall i | 0 <= i < |old(ranges)| :: old(ranges)[i].id != id
    {
      hide ShareByte;
      var collision := HasCollision(offset, size, mode);
      if collision { return -1; }
      id := nextId;
      nextId := nextId + 1;
      ranges := ranges + [Range(client, id, offset, size, mode)];
    }

    /** Removes the one range with these attributes, if it is there. */
    method UnregisterRange(client: nat, id: int, offset: nat, size: nat, mode: Mode) returns (found: bool)
      requires Valid()
      modifies this`ranges
      ensures Valid()
      ensures found <==> Range(client, id, offset, size, mode) in old(ranges)
      ensures !found ==> ranges == old(ranges)
      ensures forall r :: r in ranges <==> r in old(ranges) && r != Range(client, id, offset, size, mode)
    {
      var target := Range(client, id, offset, size, mode);
      for i := 0 to |ranges|
        invariant ranges == old(ranges) && target !in ranges[..i]
      {
        if ranges[i] == target {
          ranges := ranges[..i] + ranges[i + 1..];
          RemovedKeeps(old(ranges), i, nextId);
          return true;
        }
      }
      return false;
    }

    /** Removes every range of a client. */
    method ClientDisconnect(client: nat)
      requires Valid()
      modifies this`ranges
      ensures Valid() && ranges == Without(old(ranges), client)
    {
      var kept: seq<Range> := [];
      for i := 0 to |ranges|
        invariant ranges == old(ranges) && kept == Without(ranges[..i], client)
      {
        assert ranges[..i + 1][..i] == ranges[..i];
        if ranges[i].client != client {
          kept := kept + [ranges[i]];
        }
      }
      assert ranges[..|ranges|] == ranges;
      WithoutKeeps(ranges, client, nextId);
      ranges := kept;
    }
  }

  function Removed(ranges: seq<Range>, i: nat): seq<Range>
    requires i < |ranges|
  {
    ranges[..i] + ranges[i + 1..]
  }

  lemma RemovedContents(ranges: seq<Range>, i: nat, r: Range)
    requires i < |ranges| && forall j | 0 <= j < |ranges| && j != i :: ranges[j] != ranges[i]
    ensures r in Removed(ranges, i) <==> r in ranges && r != ranges[i]
  {
    assert ranges == ranges[..i] + [ranges[i]] + ranges[i + 1..];
  }

  lemma RemovedKeeps(ranges: seq<Range>, i: nat, nextId: int)
    requires i < |ranges| && Exclusive(ranges) && IdsOk(ranges, nextId)
    ensures Exclusive(Removed(ranges, i)) && IdsOk(Removed(ranges, i), nextId)
    ensures forall r :: r in Removed(ranges, i) <==> r in ranges && r != ranges[i]
  {
    var rest := Removed(ranges, i);
    forall x, y | 0 <= x < y < |rest| ensures !Conflict(rest[x], rest[y].offset, rest[y].size, rest[y].mode)
        && rest[x].id < rest[y].id {
      var x', y' := if x < i then x else x + 1, if y < i then y else y + 1;
      assert rest[x] == ranges[x'] && rest[y] == ranges[y'] && x' < y';
    }
    forall x | 0 <= x < |rest| ensures 0 < rest[x].id < nextId {
      assert rest[x] == ranges[if x < i then x else x + 1];
    }
    forall r ensures r in rest <==> r in ranges && r != ranges[i] { RemovedContents(ranges, i, r); }
  }
}
