/**
 * The listing order of the in-memory repository: a stable sort on the
 * creation instant, newest first, followed by Python's `s[skip : skip + limit]`.
 */
module Listing {
  import opened Devices

  /** `s` is ordered by creation instant, newest first. */
  predicate NewestFirst(s: seq<Device>) {
    forall i, j :: 0 <= i < j < |s| ==> s[j].createdAt <= s[i].createdAt
  }

  /** The devices of `s` created at instant `t`, in their order in `s`. */
  function TiedAt(s: seq<Device>, t: int): (r: seq<Device>)
    ensures forall d :: d in r ==> d in s && d.createdAt == t
  {
    if s == [] then []
    else if s[0].createdAt == t then [s[0]] + TiedAt(s[1..], t)
    else TiedAt(s[1..], t)
  }

  /**
   * Inserts `d` into `s` in front of the first device that is not newer than
   * it, so that `d` precedes every device of `s` created at the same instant.
   */
  function Insert(d: Device, s: seq<Device>): (r: seq<Device>)
    ensures |r| == |s| + 1
  {
    if s == [] || s[0].createdAt <= d.createdAt then [d] + s
    else [s[0]] + Insert(d, s[1..])
  }

  /**
   * The order Python's `sorted(values, key=created_at, reverse=True)` gives:
   * newest first, and devices created at the same instant keep the order
   * they have in `s` (Python's sort is stable, also when reversed).
   */
  function SortNewestFirst(s: seq<Device>): (r: seq<Device>)
    ensures |r| == |s|
  {
    if s == [] then [] else Insert(s[0], SortNewestFirst(s[1..]))
  }

  lemma {:induction false} InsertPermutes(d: Device, s: seq<Device>)
    ensures multiset(Insert(d, s)) == multiset(s) + multiset{d}
    ensures |Insert(d, s)| == |s| + 1
  {
    if s == [] || s[0].createdAt <= d.createdAt {
    } else {
      InsertPermutes(d, s[1..]);
      assert s == [s[0]] + s[1..];
    }
  }

  lemma {:induction false} InsertKeepsOrder(d: Device, s: seq<Device>)
    requires NewestFirst(s)
    ensures NewestFirst(Insert(d, s))
  {
    if s == [] || s[0].createdAt <= d.createdAt {
    } else {
      InsertKeepsOrder(d, s[1..]);
      InsertPermutes(d, s[1..]);
      var r := Insert(d, s[1..]);
      forall k | 0 <= k < |r|
        ensures r[k].createdAt <= s[0].createdAt
      {
        assert r[k] in multiset(r);
        assert r[k] in multiset(s[1..]) + multiset{d};
      }
    }
  }

  /** Inserting `d` into an ordered sequence puts it in front of the devices created at the same instant. */
  lemma {:induction false} InsertIsStable(d: Device, s: seq<Device>, t: int)
    requires NewestFirst(s)
    ensures TiedAt(Insert(d, s), t)
         == if d.createdAt == t then [d] + TiedAt(s, t) else TiedAt(s, t)
  {
    if s == [] || s[0].createdAt <= d.createdAt {
      assert ([d] + s)[1..] == s;
    } else {
      InsertIsStable(d, s[1..], t);
      assert ([s[0]] + Insert(d, s[1..]))[1..] == Insert(d, s[1..]);
    }
  }

  /** The sort returns a rearrangement of its input, of the same length. */
  lemma {:induction false} SortPermutes(s: seq<Device>)
    ensures multiset(SortNewestFirst(s)) == multiset(s)
    ensures |SortNewestFirst(s)| == |s|
  {
    if s != [] {
      SortPermutes(s[1..]);
      InsertPermutes(s[0], SortNewestFirst(s[1..]));
      assert s == [s[0]] + s[1..];
    }
  }

  /** The sort puts newer devices first. */
  lemma {:induction false} SortOrders(s: seq<Device>)
    ensures NewestFirst(SortNewestFirst(s))
  {
    if s != [] {
      SortOrders(s[1..]);
      InsertKeepsOrder(s[0], SortNewestFirst(s[1..]));
    }
  }

  /** The sort is stable: devices created at the same instant keep their relative order. */
  lemma {:induction false} SortIsStable(s: seq<Device>, t: int)
    ensures TiedAt(SortNewestFirst(s), t) == TiedAt(s, t)
  {
    if s != [] {
      SortIsStable(s[1..], t);
      SortOrders(s[1..]);
      InsertIsStable(s[0], SortNewestFirst(s[1..]), t);
    }
  }

  /**
   * Python's slice `s[skip : skip + limit]` for non-negative bounds: it
   * skips the first `skip` elements and keeps at most `limit` of the rest.
   */
  function Page<T>(s: seq<T>, skip: nat, limit: nat): (r: seq<T>)
    ensures |r| == if skip < |s| then Min(limit, |s| - skip) else 0
    ensures forall i :: 0 <= i < |r| ==> r[i] == s[skip + i]
  {
    if |s| <= skip then []
    else s[skip..skip + Min(limit, |s| - skip)]
  }

  function Min(a: int, b: int): int {
    if a <= b then a else b
  }

  /** A page of an ordered sequence is ordered, and holds only elements of it. */
  lemma PageOfOrdered(s: seq<Device>, skip: nat, limit: nat)
    requires NewestFirst(s)
    ensures NewestFirst(Page(s, skip, limit))
    ensures forall d :: d in Page(s, skip, limit) ==> d in s
  {
    var r := Page(s, skip, limit);
    forall d | d in r ensures d in s {
      var i :| 0 <= i < |r| && r[i] == d;
      assert s[skip + i] == d;
    }
  }
}
