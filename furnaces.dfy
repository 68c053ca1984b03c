/**
 * The furnace registry of the nearby-smelt command handler: the list of block positions
 * at which a furnace is known to stand, the remove-then-maybe-append update applied for a
 * replicated furnace event, and the plain append applied for a local block placement.
 */
module Furnaces {
  import opened Wrappers

  /** A Java `int`. */
  type Int32 = x: int | -0x8000_0000 <= x < 0x8000_0000

  /** A block position; equality is component-wise, as for `BlockPos.equals`. */
  datatype Pos = Pos(x: Int32, y: Int32, z: Int32)

  /** One replicated registry mutation: add or remove the furnace at `pos`. */
  datatype FurnaceMessage = FurnaceMessage(pos: Pos, isAdd: bool)

  /** Number of entries of `s` equal to `p`. */
  function Count(s: seq<Pos>, p: Pos): nat
  {
    if s == [] then 0 else (if s[0] == p then 1 else 0) + Count(s[1..], p)
  }

  predicate NoDuplicates(s: seq<Pos>)
  {
    forall i, j :: 0 <= i < j < |s| ==> s[i] != s[j]
  }

  /** `a` can be obtained from `b` by deleting entries (relative order is kept). */
  predicate IsSubsequence<T(==)>(a: seq<T>, b: seq<T>)
  {
    if a == [] then true
    else if b == [] then false
    else if a[0] == b[0] then IsSubsequence(a[1..], b[1..])
    else IsSubsequence(a, b[1..])
  }

  /** The list left behind by deleting every entry equal to `p`. */
  function RemoveAll(s: seq<Pos>, p: Pos): (r: seq<Pos>)
    ensures |r| <= |s|
    ensures p !in r
    ensures forall q :: q in r <==> q in s && q != p
  {
    if s == [] then []
    else (if s[0] == p then [] else [s[0]]) + RemoveAll(s[1..], p)
  }

  /**
   * The effect of the replicated furnace message handler: remove, then append when adding.
   * Afterwards the event's position is present exactly when the event adds it, and then as
   * the last entry; every other position is present exactly when it was before.
   */
  function ApplyEvent(s: seq<Pos>, m: FurnaceMessage): (r: seq<Pos>)
    ensures forall q :: q in r <==> (q == m.pos && m.isAdd) || (q in s && q != m.pos)
    ensures m.isAdd ==> r != [] && r[|r| - 1] == m.pos
  {
    RemoveAll(s, m.pos) + (if m.isAdd then [m.pos] else [])
  }

  /** The events of `evs` applied to `s` in arrival order. */
  function Replay(s: seq<Pos>, evs: seq<FurnaceMessage>): seq<Pos>
  {
    if evs == [] then s else ApplyEvent(Replay(s, evs[..|evs| - 1]), evs[|evs| - 1])
  }

  /** The flag of the last event of `evs` about `p`, if there is one. */
  function LastEventFor(evs: seq<FurnaceMessage>, p: Pos): Option<bool>
  {
    if evs == [] then None
    else if evs[|evs| - 1].pos == p then Some(evs[|evs| - 1].isAdd)
    else LastEventFor(evs[..|evs| - 1], p)
  }

  lemma {:induction false} CountAppend(a: seq<Pos>, b: seq<Pos>, p: Pos)
    ensures Count(a + b, p) == Count(a, p) + Count(b, p)
  {
    if a == [] {
      assert a + b == b;
    } else {
      assert (a + b)[1..] == a[1..] + b;
      CountAppend(a[1..], b, p);
    }
  }

  lemma {:induction false} CountZeroIffAbsent(s: seq<Pos>, p: Pos)
    ensures Count(s, p) == 0 <==> p !in s
  {
    if s != [] {
      CountZeroIffAbsent(s[1..], p);
      assert s == [s[0]] + s[1..];
    }
  }

  /** Deleting `p` keeps the multiplicity of every other position. */
  lemma {:induction false} RemoveAllCount(s: seq<Pos>, p: Pos, q: Pos)
    ensures Count(RemoveAll(s, p), q) == if q == p then 0 else Count(s, q)
  {
    if s == [] {
    } else {
      var head := if s[0] == p then [] else [s[0]];
      CountAppend(head, RemoveAll(s[1..], p), q);
      RemoveAllCount(s[1..], p, q);
      if q == p {
        CountZeroIffAbsent(RemoveAll(s, p), p);
      }
    }
  }

  /** Deleting keeps the surviving entries in their original relative order. */
  lemma {:induction false} RemoveAllIsSubsequence(s: seq<Pos>, p: Pos)
    ensures IsSubsequence(RemoveAll(s, p), s)
  {
    if s != [] {
      RemoveAllIsSubsequence(s[1..], p);
      var r := RemoveAll(s, p);
      if s[0] == p {
        assert r == RemoveAll(s[1..], p);
        SubsequenceDropHead(r, s);
      } else {
        assert r == [s[0]] + RemoveAll(s[1..], p);
        assert r[1..] == RemoveAll(s[1..], p);
      }
    }
  }

  lemma SubsequenceDropHead<T>(a: seq<T>, b: seq<T>)
    requires b != [] && IsSubsequence(a, b[1..])
    requires a != [] ==> a[0] != b[0]
    ensures IsSubsequence(a, b)
  {
  }

  /** Removing a position that is not in the list changes nothing. */
  lemma {:induction false} RemoveAllAbsent(s: seq<Pos>, p: Pos)
    requires p !in s
    ensures RemoveAll(s, p) == s
  {
    if s != [] {
      assert p !in s[1..];
      RemoveAllAbsent(s[1..], p);
      assert s == [s[0]] + s[1..];
    }
  }

  lemma {:induction false} RemoveAllAppendSame(s: seq<Pos>, p: Pos)
    ensures RemoveAll(s + [p], p) == RemoveAll(s, p)
  {
    if s == [] {
      assert [p][1..] == [];
    } else {
      assert (s + [p])[1..] == s[1..] + [p];
      RemoveAllAppendSame(s[1..], p);
    }
  }

  /** Appending one element to the larger list keeps a subsequence a subsequence. */
  lemma {:induction false} SubsequenceAppendRight<T>(a: seq<T>, b: seq<T>, x: T)
    requires IsSubsequence(a, b)
    ensures IsSubsequence(a, b + [x])
    decreases |b|
  {
    if a != [] {
      assert (b + [x])[1..] == b[1..] + [x];
      if a[0] == b[0] {
        SubsequenceAppendRight(a[1..], b[1..], x);
      } else {
        SubsequenceAppendRight(a, b[1..], x);
      }
    }
  }

  /** Appending the same element to both lists keeps a subsequence a subsequence. */
  lemma {:induction false} SubsequenceSnoc<T>(a: seq<T>, b: seq<T>, x: T)
    requires IsSubsequence(a, b)
    ensures IsSubsequence(a + [x], b + [x])
    decreases |b|
  {
    if a == [] {
      if b != [] && b[0] != x {
        assert (b + [x])[1..] == b[1..] + [x];
        SubsequenceSnoc(a, b[1..], x);
      }
      assert a + [x] == [x] && [x][1..] == [];
    } else {
      assert (b + [x])[1..] == b[1..] + [x];
      assert (a + [x])[1..] == a[1..] + [x];
      if a[0] == b[0] {
        SubsequenceSnoc(a[1..], b[1..], x);
      } else {
        SubsequenceSnoc(a, b[1..], x);
      }
    }
  }

  lemma {:induction false} NoDuplicatesCons(x: Pos, t: seq<Pos>)
    ensures NoDuplicates([x] + t) <==> x !in t && NoDuplicates(t)
  {
    var s := [x] + t;
    if x !in t && NoDuplicates(t) {
      forall i, j | 0 <= i < j < |s| ensures s[i] != s[j] {
        if i > 0 {
          assert s[i] == t[i - 1] && s[j] == t[j - 1];
        } else {
          assert s[j] == t[j - 1];
        }
      }
    }
    if NoDuplicates(s) {
      forall i, j | 0 <= i < j < |t| ensures t[i] != t[j] {
        assert t[i] == s[i + 1] && t[j] == s[j + 1];
      }
      forall k | 0 <= k < |t| ensures t[k] != x {
        assert s[0] == x && s[k + 1] == t[k];
      }
    }
  }

  lemma {:induction false} RemoveAllKeepsNoDuplicates(s: seq<Pos>, p: Pos)
    requires NoDuplicates(s)
    ensures NoDuplicates(RemoveAll(s, p))
  {
    if s != [] {
      assert s == [s[0]] + s[1..];
      NoDuplicatesCons(s[0], s[1..]);
      RemoveAllKeepsNoDuplicates(s[1..], p);
      if s[0] != p {
        NoDuplicatesCons(s[0], RemoveAll(s[1..], p));
      }
    }
  }

  lemma NoDuplicatesSnoc(s: seq<Pos>, x: Pos)
    requires NoDuplicates(s) && x !in s
    ensures NoDuplicates(s + [x])
  {
    var r := s + [x];
    forall i, j | 0 <= i < j < |r| ensures r[i] != r[j] {
      if j == |s| {
        assert r[i] == s[i];
      } else {
        assert r[i] == s[i] && r[j] == s[j];
      }
    }
  }

  /**
   * After a replicated event the position occurs exactly once, as the last entry, when the
   * event adds it, and not at all when it removes it; every other position keeps its count.
   */
  lemma ApplyEventCounts(s: seq<Pos>, m: FurnaceMessage, q: Pos)
    ensures Count(ApplyEvent(s, m), m.pos) == if m.isAdd then 1 else 0
    ensures m.isAdd ==> ApplyEvent(s, m)[|ApplyEvent(s, m)| - 1] == m.pos
    ensures q != m.pos ==> Count(ApplyEvent(s, m), q) == Count(s, q)
  {
    var tail := if m.isAdd then [m.pos] else [];
    CountAppend(RemoveAll(s, m.pos), tail, m.pos);
    CountAppend(RemoveAll(s, m.pos), tail, q);
    RemoveAllCount(s, m.pos, m.pos);
    RemoveAllCount(s, m.pos, q);
    assert Count([m.pos], m.pos) == 1;
    assert Count([m.pos], q) == if q == m.pos then 1 else 0;
  }

  /** Applying the same replicated event twice gives the list it gives once. */
  lemma ApplyEventIdempotent(s: seq<Pos>, m: FurnaceMessage)
    ensures ApplyEvent(ApplyEvent(s, m), m) == ApplyEvent(s, m)
  {
    var r := RemoveAll(s, m.pos);
    RemoveAllAbsent(r, m.pos);
    if m.isAdd {
      RemoveAllAppendSame(r, m.pos);
      assert ApplyEvent(r + [m.pos], m) == RemoveAll(r + [m.pos], m.pos) + [m.pos];
    } else {
      assert ApplyEvent(s, m) == r;
    }
  }

  /** A replicated event never introduces a duplicate. */
  lemma ApplyEventKeepsNoDuplicates(s: seq<Pos>, m: FurnaceMessage)
    requires NoDuplicates(s)
    ensures NoDuplicates(ApplyEvent(s, m))
  {
    RemoveAllKeepsNoDuplicates(s, m.pos);
    if m.isAdd {
      NoDuplicatesSnoc(RemoveAll(s, m.pos), m.pos);
    } else {
      assert ApplyEvent(s, m) == RemoveAll(s, m.pos);
    }
  }

  /**
   * After a sequence of replicated events, a position is registered exactly when the last
   * event about it added it, or, when no event names it, when it was registered before.
   */
  lemma {:induction false} ReplayMembership(s: seq<Pos>, evs: seq<FurnaceMessage>, p: Pos)
    ensures p in Replay(s, evs) <==> match LastEventFor(evs, p)
                                       case None => p in s
                                       case Some(isAdd) => isAdd
  {
    if evs != [] {
      var init := evs[..|evs| - 1];
      var m := evs[|evs| - 1];
      ReplayMembership(s, init, p);
      var before := Replay(s, init);
      assert Replay(s, evs) == RemoveAll(before, m.pos) + (if m.isAdd then [m.pos] else []);
    }
  }

  /** Replaying events onto a list without duplicates yields a list without duplicates. */
  lemma {:induction false} ReplayKeepsNoDuplicates(s: seq<Pos>, evs: seq<FurnaceMessage>)
    requires NoDuplicates(s)
    ensures NoDuplicates(Replay(s, evs))
  {
    if evs != [] {
      ReplayKeepsNoDuplicates(s, evs[..|evs| - 1]);
      ApplyEventKeepsNoDuplicates(Replay(s, evs[..|evs| - 1]), evs[|evs| - 1]);
    }
  }

  /**
   * Two mirrors that receive the same events agree on every position the events name,
   * whatever they held before.
   */
  lemma ReplayConverges(s1: seq<Pos>, s2: seq<Pos>, evs: seq<FurnaceMessage>, p: Pos)
    requires LastEventFor(evs, p).Some?
    ensures p in Replay(s1, evs) <==> p in Replay(s2, evs)
  {
    ReplayMembership(s1, evs, p);
    ReplayMembership(s2, evs, p);
  }

  /**
   * The local placement handler appends without removing first, so placing a furnace at a
   * position that is already registered leaves a duplicate.
   */
  lemma PlaceCanDuplicate(s: seq<Pos>, p: Pos)
    requires p in s
    ensures Count(s + [p], p) == Count(s, p) + 1 >= 2
    ensures !NoDuplicates(s + [p])
  {
    CountAppend(s, [p], p);
    CountZeroIffAbsent(s, p);
    assert Count([p], p) == 1;
    var k :| 0 <= k < |s| && s[k] == p;
    assert (s + [p])[k] == (s + [p])[|s|];
  }

  /** A replicated add that follows a local append of the same position absorbs it. */
  lemma ApplyEventAfterPlace(s: seq<Pos>, p: Pos)
    ensures ApplyEvent(s + [p], FurnaceMessage(p, true)) == ApplyEvent(s, FurnaceMessage(p, true))
  {
    RemoveAllAppendSame(s, p);
  }

  lemma RemoveAllStep(s: seq<Pos>, i: nat, p: Pos)
    requires i < |s|
    ensures RemoveAll(s[i..], p) == (if s[i] == p then [] else [s[i]]) + RemoveAll(s[i + 1..], p)
  {
    assert s[i..][1..] == s[i + 1..];
  }

  /** One step of the backward deletion loop: the entry at `i` is handled, the list stays in shape. */
  lemma DeletionStep(s: seq<Pos>, i: nat, p: Pos, f: seq<Pos>)
    requires i < |s| && f == s[..i + 1] + RemoveAll(s[i + 1..], p)
    ensures f[i] == s[i]
    ensures s[i] == p ==> f[..i] + f[i + 1..] == s[..i] + RemoveAll(s[i..], p)
    ensures s[i] != p ==> f == s[..i] + RemoveAll(s[i..], p)
  {
    RemoveAllStep(s, i, p);
    assert f[..i] == s[..i];
    assert f[i + 1..] == RemoveAll(s[i + 1..], p);
    assert s[..i + 1] == s[..i] + [s[i]];
  }

  /**
   * The furnace list shared by every handler of one process: server-authoritative on the
   * server, a mirror on each client.
   */
  class FurnaceRegistry {
    var furnaces: seq<Pos>

    constructor ()
      ensures furnaces == []
    {
      furnaces := [];
    }

    /** Replace the list by a fresh empty one. */
    method Reset()
      modifies this
      ensures furnaces == []
    {
      furnaces := [];
    }

    /** Append one entry, as `ArrayList.add` does. */
    method Add(pos: Pos)
      modifies this
      ensures furnaces == old(furnaces) + [pos]
    {
      furnaces := furnaces + [pos];
    }

    /** Walk the list from the back, deleting every entry equal to `pos` in place. */
    method MaybeRemoveAtPos(pos: Pos)
      modifies this
      ensures furnaces == RemoveAll(old(furnaces), pos)
    {
      ghost var s := furnaces;
      var i := |furnaces| - 1;
      while i >= 0
        invariant -1 <= i < |s|
        invariant furnaces == s[..i + 1] + RemoveAll(s[i + 1..], pos)
      {
        DeletionStep(s, i, pos, furnaces);
        if furnaces[i] == pos {
          furnaces := furnaces[..i] + furnaces[i + 1..];
        }
        i := i - 1;
      }
      assert s[0..] == s;
    }
  }
}
