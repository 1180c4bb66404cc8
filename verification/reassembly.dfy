/** Multi-frame reassembly (`decodeMultipleFramesWithFrameId`): payloads
    carry a 1-based frame id in their first byte; they are sorted by id,
    the ids must be exactly 1..N, and the rest of each payload is returned
    in id order. */
module Reassembly {
  import opened Wrappers
  import opened ByteCodec

  /** Every payload has its id byte (the source reads `frame[0]`). */
  predicate AllTagged(frames: seq<seq<byte>>) {
    forall i | 0 <= i < |frames| :: |frames[i]| > 0
  }

  /** The id bytes of the payloads, in order. */
  function Ids(frames: seq<seq<byte>>): (ids: seq<int>)
    requires AllTagged(frames)
    ensures |ids| == |frames|
    ensures forall i | 0 <= i < |frames| :: ids[i] == frames[i][0]
  {
    seq(|frames|, i requires 0 <= i < |frames| => frames[i][0])
  }

  /** The ids every complete response of `n` frames must carry. */
  function OneTo(n: nat): (s: seq<int>)
    ensures |s| == n
    ensures forall i | 0 <= i < n :: s[i] == i + 1
  {
    seq(n, i => i + 1)
  }

  predicate Ascending(s: seq<int>) {
    forall i, j | 0 <= i < j < |s| :: s[i] <= s[j]
  }

  predicate SortedById(frames: seq<seq<byte>>)
    requires AllTagged(frames)
  {
    Ascending(Ids(frames))
  }

  /** Insertion of one payload into a list sorted by id. */
  function InsertById(x: seq<byte>, s: seq<seq<byte>>): (r: seq<seq<byte>>)
    requires |x| > 0 && AllTagged(s) && SortedById(s)
    ensures AllTagged(r) && SortedById(r)
    ensures multiset(r) == multiset(s) + multiset{x}
    ensures |r| == |s| + 1
    ensures r[0] == x || (s != [] && r[0] == s[0])
  {
    if s == [] || x[0] <= s[0][0] then
      ConsSorted(x, s);
      [x] + s
    else
      TailSorted(s);
      var rest := InsertById(x, s[1..]);
      InsertStep(x, s, rest);
      [s[0]] + rest
  }

  /** Inserting behind the head: the head stays first and the list stays
      sorted, holding one more copy of `x`. */
  lemma InsertStep(x: seq<byte>, s: seq<seq<byte>>, rest: seq<seq<byte>>)
    requires |x| > 0 && s != [] && AllTagged(s) && s[0][0] < x[0]
    requires |s| > 1 ==> s[0][0] <= s[1][0]
    requires AllTagged(rest) && SortedById(rest) && rest != []
    requires rest[0] == x || (|s| > 1 && rest[0] == s[1])
    requires multiset(rest) == multiset(s[1..]) + multiset{x}
    ensures AllTagged([s[0]] + rest) && SortedById([s[0]] + rest)
    ensures multiset([s[0]] + rest) == multiset(s) + multiset{x}
  {
    ConsSorted(s[0], rest);
    assert s == [s[0]] + s[1..];
  }

  /** The tail of a sorted list is sorted and starts no lower than its head. */
  lemma TailSorted(s: seq<seq<byte>>)
    requires s != [] && AllTagged(s) && SortedById(s)
    ensures AllTagged(s[1..]) && SortedById(s[1..])
    ensures |s| > 1 ==> s[0][0] <= s[1][0]
  {
    var ids, tail := Ids(s), Ids(s[1..]);
    forall i, j | 0 <= i < j < |tail|
      ensures tail[i] <= tail[j]
    {
      assert tail[i] == ids[i + 1] && tail[j] == ids[j + 1];
    }
    if |s| > 1 {
      assert ids[0] <= ids[1];
    }
  }

  /** A payload whose id is at most the first id of a sorted list keeps
      it sorted when put in front. */
  lemma ConsSorted(a: seq<byte>, rest: seq<seq<byte>>)
    requires |a| > 0 && AllTagged(rest) && SortedById(rest)
    requires rest != [] ==> a[0] <= rest[0][0]
    ensures AllTagged([a] + rest) && SortedById([a] + rest)
  {
    var r := [a] + rest;
    var ids, tail := Ids(r), Ids(rest);
    forall i, j | 0 <= i < j < |r|
      ensures ids[i] <= ids[j]
    {
      assert r[j] == rest[j - 1];
      assert ids[j] == tail[j - 1];
      if i > 0 {
        assert r[i] == rest[i - 1];
        assert ids[i] == tail[i - 1];
      } else if rest != [] {
        assert tail[0] <= tail[j - 1];
      }
    }
  }

  /** Sorting by id. The source's `sorted` is not stable, but on every
      input where reassembly succeeds the ids are distinct and the sorted
      order is unique, so any sort gives the same answer. */
  function SortById(frames: seq<seq<byte>>): (r: seq<seq<byte>>)
    requires AllTagged(frames)
    ensures AllTagged(r) && SortedById(r)
    ensures multiset(r) == multiset(frames)
    ensures |r| == |frames|
  {
    if frames == [] then []
    else
      assert frames == [frames[0]] + frames[1..];
      InsertById(frames[0], SortById(frames[1..]))
  }

  /** `decodeMultipleFramesWithFrameId`: sort by id, require the sorted
      ids to be 1, 2, ..., N, and drop the id byte of each payload.
      Succeeds exactly when the ids are a permutation of 1..N; then slot
      `id - 1` of the result holds the rest of the payload tagged `id`. */
  function Reassemble(frames: seq<seq<byte>>): (r: Result<seq<seq<byte>>, DalyError>)
    requires AllTagged(frames)
    ensures r.Success? <==> multiset(Ids(frames)) == multiset(OneTo(|frames|))
    ensures r.Failure? ==> r.error == IncompleteFrames
    ensures r.Success? ==>
              && |r.value| == |frames|
              && forall j | 0 <= j < |frames| ::
                   && 1 <= frames[j][0] <= |frames|
                   && r.value[frames[j][0] - 1] == frames[j][1..]
  {
    var sorted := SortById(frames);
    SortedIdsComplete(frames);
    if NumberedInOrder(sorted) then
      var data := seq(|sorted|, i requires 0 <= i < |sorted| => sorted[i][1..]);
      PlacedById(frames, sorted, data);
      Success(data)
    else
      Failure(IncompleteFrames)
  }

  /** The sorted ids are exactly 1..N iff the ids, in any order, are. */
  lemma {:induction false} SortedIdsComplete(frames: seq<seq<byte>>)
    requires AllTagged(frames)
    ensures NumberedInOrder(SortById(frames)) <==> multiset(Ids(frames)) == multiset(OneTo(|frames|))
  {
    var sorted := SortById(frames);
    IdsMultiset(sorted, frames);
    SortedIdsAreOneTo(sorted);
  }

  /** Payload `i` carries id `i + 1`. */
  predicate NumberedInOrder(frames: seq<seq<byte>>)
    requires AllTagged(frames)
  {
    forall i | 0 <= i < |frames| :: frames[i][0] == i + 1
  }

  /** A payload list sorted by id carries the ids 1..N in that order iff
      its ids are 1..N in some order. */
  lemma {:induction false} SortedIdsAreOneTo(sorted: seq<seq<byte>>)
    requires AllTagged(sorted) && SortedById(sorted)
    ensures NumberedInOrder(sorted) <==> multiset(Ids(sorted)) == multiset(OneTo(|sorted|))
  {
    var ids, one := Ids(sorted), OneTo(|sorted|);
    if multiset(ids) == multiset(one) {
      assert Ascending(ids);
      assert Ascending(one);
      SortedUnique(ids, one);
    }
    if NumberedInOrder(sorted) {
      assert ids == one;
    }
  }

  /** When the sorted ids are 1..N, each input payload lands in the slot
      its id names. */
  lemma {:induction false} PlacedById(frames: seq<seq<byte>>, sorted: seq<seq<byte>>, data: seq<seq<byte>>)
    requires AllTagged(frames) && AllTagged(sorted)
    requires multiset(sorted) == multiset(frames)
    requires NumberedInOrder(sorted)
    requires |data| == |sorted| == |frames|
    requires forall i | 0 <= i < |sorted| :: data[i] == sorted[i][1..]
    ensures forall j | 0 <= j < |frames| ::
              && 1 <= frames[j][0] <= |frames|
              && data[frames[j][0] - 1] == frames[j][1..]
  {
    forall j | 0 <= j < |frames|
      ensures 1 <= frames[j][0] <= |frames| && data[frames[j][0] - 1] == frames[j][1..]
    {
      assert frames[j] in multiset(sorted);
      var k :| 0 <= k < |sorted| && sorted[k] == frames[j];
    }
  }

  /** Two ascending sequences with the same elements are equal. */
  lemma {:induction false} SortedUnique(s: seq<int>, t: seq<int>)
    requires Ascending(s) && Ascending(t)
    requires multiset(s) == multiset(t)
    ensures s == t
    decreases |s|
  {
    assert |s| == |multiset(s)| == |multiset(t)| == |t|;
    if s != [] {
      assert s[0] in multiset(t);
      assert t[0] in multiset(s);
      assert s[0] == t[0];
      assert s == [s[0]] + s[1..];
      assert t == [t[0]] + t[1..];
      assert multiset(s) == multiset{s[0]} + multiset(s[1..]);
      assert multiset(t) == multiset{t[0]} + multiset(t[1..]);
      assert multiset(s[1..]) == multiset(s) - multiset{s[0]};
      assert multiset(t[1..]) == multiset(t) - multiset{t[0]};
      SortedUnique(s[1..], t[1..]);
    }
  }

  /** The ids of a concatenation are the concatenated ids. */
  lemma {:induction false} IdsConcat(a: seq<seq<byte>>, b: seq<seq<byte>>)
    requires AllTagged(a) && AllTagged(b)
    ensures AllTagged(a + b) && Ids(a + b) == Ids(a) + Ids(b)
  {
    assert AllTagged(a + b) by {
      forall i | 0 <= i < |a + b| ensures |(a + b)[i]| > 0 {
        if i >= |a| {
          assert (a + b)[i] == b[i - |a|];
        }
      }
    }
  }

  /** Rearranging the payloads rearranges their ids. */
  lemma {:induction false} IdsMultiset(f: seq<seq<byte>>, g: seq<seq<byte>>)
    requires AllTagged(f) && AllTagged(g)
    requires multiset(f) == multiset(g)
    ensures multiset(Ids(f)) == multiset(Ids(g))
    decreases |f|
  {
    if f != [] {
      var x := f[0];
      var k := IndexOf(g, x);
      var others := g[..k] + g[k + 1..];
      RemoveOne(g, k);
      assert f == [x] + f[1..];
      assert multiset(f[1..]) == multiset(others);
      IdsHead(f);
      IdsSplit(g, k);
      IdsMultiset(f[1..], others);
    } else {
      assert |g| == |multiset(g)| == 0;
    }
  }

  /** The ids of a non-empty list are its head's id and the rest's ids. */
  lemma IdsHead(s: seq<seq<byte>>)
    requires AllTagged(s) && s != []
    ensures AllTagged(s[1..])
    ensures multiset(Ids(s)) == multiset(Ids(s[1..])) + multiset{s[0][0]}
  {
    assert Ids(s) == [s[0][0]] + Ids(s[1..]);
  }

  /** A position at which an element of the multiset occurs. */
  lemma IndexOf<T>(s: seq<T>, x: T) returns (k: nat)
    requires x in multiset(s)
    ensures k < |s| && s[k] == x
  {
    k :| 0 <= k < |s| && s[k] == x;
  }

  /** Removing the element at `k` removes one occurrence of it. */
  lemma RemoveOne<T>(s: seq<T>, k: nat)
    requires k < |s|
    ensures multiset(s[..k] + s[k + 1..]) == multiset(s) - multiset{s[k]}
  {
    assert s == s[..k] + [s[k]] + s[k + 1..];
  }

  /** The ids around position `k` account for all ids but one. */
  lemma {:induction false} IdsSplit(s: seq<seq<byte>>, k: nat)
    requires AllTagged(s) && k < |s|
    ensures AllTagged(s[..k] + s[k + 1..])
    ensures multiset(Ids(s)) == multiset(Ids(s[..k] + s[k + 1..])) + multiset{s[k][0]}
  {
    var ids := Ids(s);
    IdsConcat(s[..k], s[k + 1..]);
    assert Ids(s[..k] + s[k + 1..]) == ids[..k] + ids[k + 1..];
    RemoveOne(ids, k);
  }

  /** On success, slot `k` holds the payload tagged `k + 1`. */
  lemma {:induction false} SlotSource(f: seq<seq<byte>>, k: nat) returns (j: nat)
    requires AllTagged(f) && Reassemble(f).Success?
    requires k < |f|
    ensures j < |f| && f[j][0] == k + 1 && Reassemble(f).value[k] == f[j][1..]
  {
    assert OneTo(|f|)[k] == k + 1;
    assert k + 1 in multiset(Ids(f));
    j :| 0 <= j < |f| && Ids(f)[j] == k + 1;
  }

  /** Every chunk `k` is the payload tagged `k + 1` without its id byte. */
  predicate Sourced(f: seq<seq<byte>>, chunks: seq<seq<byte>>)
    requires AllTagged(f)
  {
    && |chunks| == |f|
    && forall k | 0 <= k < |chunks| :: SourcedAt(f, chunks, k)
  }

  /** Chunk `k` is the payload tagged `k + 1` without its id byte. */
  predicate SourcedAt(f: seq<seq<byte>>, chunks: seq<seq<byte>>, k: nat)
    requires AllTagged(f) && k < |chunks|
  {
    exists j | 0 <= j < |f| :: f[j][0] == k + 1 && chunks[k] == f[j][1..]
  }

  /** A successful reassembly is sourced from its payloads. */
  lemma ReassembledSourced(f: seq<seq<byte>>)
    requires AllTagged(f) && Reassemble(f).Success?
    ensures Sourced(f, Reassemble(f).value)
  {
    forall k | 0 <= k < |f|
      ensures SourcedAt(f, Reassemble(f).value, k)
    {
      var j := SlotSource(f, k);
    }
  }

  /** The payload chunk `k` of a sourced reassembly comes from. */
  lemma SourceOf(f: seq<seq<byte>>, chunks: seq<seq<byte>>, k: nat) returns (j: nat)
    requires AllTagged(f) && Sourced(f, chunks)
    requires k < |chunks|
    ensures j < |f| && f[j][0] == k + 1 && chunks[k] == f[j][1..]
  {
    assert SourcedAt(f, chunks, k);
    j :| 0 <= j < |f| && f[j][0] == k + 1 && chunks[k] == f[j][1..];
  }

  /** Reassembly does not depend on the order in which the frames were
      read. */
  lemma {:induction false} ReassembleOrderIndependent(f: seq<seq<byte>>, g: seq<seq<byte>>)
    requires AllTagged(f) && AllTagged(g)
    requires multiset(f) == multiset(g)
    ensures Reassemble(f) == Reassemble(g)
  {
    assert |f| == |multiset(f)| == |multiset(g)| == |g|;
    IdsMultiset(f, g);
    if Reassemble(f).Success? {
      SameSlots(f, g);
    }
  }

  /** The slot-by-slot half of `ReassembleOrderIndependent`. */
  lemma {:induction false} SameSlots(f: seq<seq<byte>>, g: seq<seq<byte>>)
    requires AllTagged(f) && AllTagged(g)
    requires multiset(f) == multiset(g) && |f| == |g|
    requires Reassemble(f).Success? && Reassemble(g).Success?
    ensures Reassemble(f).value == Reassemble(g).value
  {
    var rf, rg := Reassemble(f).value, Reassemble(g).value;
    assert |rf| == |rg|;
    forall k | 0 <= k < |f| ensures rf[k] == rg[k] {
      SlotAgrees(f, g, k);
    }
  }

  /** Slot `k` is filled from the same payload in both orders. */
  lemma {:induction false} SlotAgrees(f: seq<seq<byte>>, g: seq<seq<byte>>, k: nat)
    requires AllTagged(f) && AllTagged(g)
    requires multiset(f) == multiset(g) && |f| == |g| && k < |f|
    requires Reassemble(f).Success? && Reassemble(g).Success?
    ensures Reassemble(f).value[k] == Reassemble(g).value[k]
  {
    var j := SlotSource(f, k);
    assert f[j] in multiset(f);
    var j' := IndexOf(g, f[j]);
    SlotOf(g, j');
    assert Reassemble(g).value[k] == g[j'][1..];
  }

  /** On success, the payload at input position `j` lands in the slot its
      id names. */
  lemma {:induction false} SlotOf(f: seq<seq<byte>>, j: nat)
    requires AllTagged(f) && Reassemble(f).Success?
    requires j < |f|
    ensures 1 <= f[j][0] <= |f| && Reassemble(f).value[f[j][0] - 1] == f[j][1..]
  {
  }

  /** A repeated id always makes reassembly fail. */
  lemma DuplicateIdRejected(frames: seq<seq<byte>>, i: nat, j: nat)
    requires AllTagged(frames)
    requires i < j < |frames| && frames[i][0] == frames[j][0]
    ensures Reassemble(frames) == Failure(IncompleteFrames)
  {
    var ids := Ids(frames);
    var v := ids[j];
    assert ids == ids[..j] + [v] + ids[j + 1..];
    assert ids[i] in ids[..j];
    assert multiset(ids)[v] >= 2;
    OneToDistinct(|frames|, v);
  }

  /** Every value occurs at most once in 1..n. */
  lemma {:induction false} OneToDistinct(n: nat, v: int)
    ensures multiset(OneTo(n))[v] <= 1
  {
    if n > 0 {
      assert OneTo(n) == OneTo(n - 1) + [n];
      OneToDistinct(n - 1, v);
      if v == n {
        assert v !in OneTo(n - 1);
      }
    }
  }

  /** An id of 0 or above N always makes reassembly fail. */
  lemma OutOfRangeIdRejected(frames: seq<seq<byte>>, i: nat)
    requires AllTagged(frames)
    requires i < |frames| && (frames[i][0] == 0 || frames[i][0] > |frames|)
    ensures Reassemble(frames) == Failure(IncompleteFrames)
  {
    assert Ids(frames)[i] in multiset(Ids(frames));
    assert Ids(frames)[i] !in OneTo(|frames|);
  }

  /** An id of 1..N that no payload carries makes reassembly fail. */
  lemma MissingIdRejected(frames: seq<seq<byte>>, k: nat)
    requires AllTagged(frames)
    requires 1 <= k <= |frames|
    requires forall i | 0 <= i < |frames| :: frames[i][0] != k
    ensures Reassemble(frames) == Failure(IncompleteFrames)
  {
    assert OneTo(|frames|)[k - 1] == k;
    assert k in multiset(OneTo(|frames|));
    assert k !in Ids(frames);
  }
}
