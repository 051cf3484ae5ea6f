/** The indexed slot store every container embeds: a plain object used as a
    map from integer keys to elements, read through a pair of boundary
    indices. */
module SlotStore {
  import opened Boundary

  /** The store's keys are exactly `lo..hi`, both ends included (none at
      all when `lo > hi`). */
  ghost predicate HasKeys<T>(m: map<int, T>, lo: int, hi: int)
  {
    forall k :: k in m <==> lo <= k <= hi
  }

  /** `m[k]` in JavaScript: the stored element, or `undefined`. */
  function Get<T>(m: map<int, T>, k: int): (r: Option<T>)
  {
    if k in m then Some(m[k]) else None
  }

  /** The stored elements at keys `lo..hi`, in key order. */
  function Slice<T>(m: map<int, T>, lo: int, hi: int): (r: seq<T>)
    requires forall k :: lo <= k <= hi ==> k in m
    ensures |r| == if lo <= hi then hi - lo + 1 else 0
    ensures forall i :: 0 <= i < |r| ==> r[i] == m[lo + i]
    decreases hi - lo
  {
    if lo <= hi then [m[lo]] + Slice(m, lo + 1, hi) else []
  }

  /** The window the Queue and the Deque keep over their store: an empty
      window has both indices at 0 and no slot; a non-empty one has live
      keys exactly `head..tail`, starting at 1 or above, and `total` counts
      them. */
  ghost predicate WindowValid<T>(total: int, head: int, tail: int, data: map<int, T>)
  {
    && total >= 0
    && (total == 0 ==> head == 0 && tail == 0 && data == map[])
    && (total > 0 ==> 1 <= head && HasKeys(data, head, tail) && total == tail - head + 1)
  }

  /** The elements a valid window shows, `data[head], ..., data[tail]`. */
  ghost function Window<T>(total: int, head: int, tail: int, data: map<int, T>): (r: seq<T>)
    requires WindowValid(total, head, tail, data)
    ensures |r| == total
  {
    if total == 0 then [] else Slice(data, head, tail)
  }

  /** Storing at `tail + 1` and advancing `tail` (and `head`, from an empty
      window) appends to the window. */
  lemma WindowAppend<T>(total: int, head: int, tail: int, data: map<int, T>, x: T)
    requires WindowValid(total, head, tail, data)
    ensures var head' := if total == 0 then 1 else head;
      && WindowValid(total + 1, head', tail + 1, data[tail + 1 := x])
      && Window(total + 1, head', tail + 1, data[tail + 1 := x]) == Window(total, head, tail, data) + [x]
  {
    var head' := if total == 0 then 1 else head;
    var data' := data[tail + 1 := x];
    assert HasKeys(data', head', tail + 1);
    var w := Window(total, head, tail, data);
    var w' := Window(total + 1, head', tail + 1, data');
    assert forall i :: 0 <= i < total ==> w'[i] == w[i];
  }

  /** A valid window without slots is the empty one. */
  lemma WindowCollapse<T>(data: map<int, T>, k: int)
    requires HasKeys(data, k, k)
    ensures data - {k} == map[]
  {
    NoMemberMeansEmpty((data - {k}).Keys);
  }

  /** Deleting the slot at `head` and advancing `head` drops the first
      element; deleting the only slot leaves no slot at all. */
  lemma WindowRemoveFirst<T>(total: int, head: int, tail: int, data: map<int, T>)
    requires WindowValid(total, head, tail, data) && total > 0
    ensures head in data && Window(total, head, tail, data)[0] == data[head]
    ensures head < tail <==> total > 1
    ensures total > 1 ==>
      && WindowValid(total - 1, head + 1, tail, data - {head})
      && Window(total - 1, head + 1, tail, data - {head}) == Window(total, head, tail, data)[1..]
    ensures total == 1 ==> data - {head} == map[]
  {
    if total > 1 {
      SliceWithoutFirst(data, head, tail);
    } else {
      WindowCollapse(data, head);
    }
  }

  /** Deleting the slot at `tail` and moving `tail` back drops the last
      element; deleting the only slot leaves no slot at all. */
  lemma WindowRemoveLast<T>(total: int, head: int, tail: int, data: map<int, T>)
    requires WindowValid(total, head, tail, data) && total > 0
    ensures tail in data && Window(total, head, tail, data)[total - 1] == data[tail]
    ensures head < tail <==> total > 1
    ensures total > 1 ==>
      && WindowValid(total - 1, head, tail - 1, data - {tail})
      && Window(total - 1, head, tail - 1, data - {tail}) == Window(total, head, tail, data)[..total - 1]
    ensures total == 1 ==> data - {tail} == map[]
  {
    if total > 1 {
      var data' := data - {tail};
      assert HasKeys(data', head, tail - 1);
      var w := Window(total, head, tail, data);
      var w' := Window(total - 1, head, tail - 1, data');
      assert forall i :: 0 <= i < total - 1 ==> w'[i] == w[i];
    } else {
      WindowCollapse(data, tail);
    }
  }

  /** The rebuild of `enqueueFront` read as a window from key 1: the new
      element followed by the old window. */
  lemma WindowPrepend<T>(total: int, head: int, tail: int, data: map<int, T>, x: T)
    requires WindowValid(total, head, tail, data) && total > 0
    ensures var data' := PrependStore(ValuesInKeyOrder(data), x);
      && WindowValid(total + 1, 1, total + 1, data')
      && Window(total + 1, 1, total + 1, data') == [x] + Window(total, head, tail, data)
  {
    ValuesInKeyOrderOfRange(data, head, tail);
  }

  /** `k` is the least key of `m`. */
  predicate IsMinKey<T>(m: map<int, T>, k: int)
  {
    k in m && forall j :: j in m ==> k <= j
  }

  /** A set of keys with no member is the empty set. */
  lemma NoMemberMeansEmpty(s: set<int>)
    requires forall x :: x !in s
    ensures s == {}
  {
    assert forall x :: x in s <==> x in {};
  }

  /** A non-empty set of keys has a member. */
  lemma SomeMemberExists(s: set<int>)
    requires s != {}
    ensures exists x :: x in s
  {
    if !(exists x :: x in s) {
      NoMemberMeansEmpty(s);
    }
  }

  /** Every non-empty finite store has a least key. */
  lemma {:induction false} MinKeyExists<T>(m: map<int, T>)
    requires |m| > 0
    ensures exists k :: IsMinKey(m, k)
    decreases |m|
  {
    assert |m.Keys| == |m|;
    SomeMemberExists(m.Keys);
    var x :| x in m.Keys;
    var rest := m - {x};
    assert rest.Keys == m.Keys - {x};
    if |rest| == 0 {
      assert rest.Keys == {};
      forall j | j in m ensures x <= j {
        assert j in rest.Keys || j == x;
      }
      assert IsMinKey(m, x);
    } else {
      MinKeyExists(rest);
      var k :| IsMinKey(rest, k);
      var least := if x < k then x else k;
      forall j | j in m ensures least <= j {
        if j != x { assert j in rest; }
      }
      assert IsMinKey(m, least);
    }
  }

  /** `Object.values(m)` on a map whose keys are all array indices: the
      values listed in increasing key order. */
  function ValuesInKeyOrder<T>(m: map<int, T>): (r: seq<T>)
    ensures |r| == |m|
    decreases |m|
  {
    if |m| == 0 then []
    else
      MinKeyExists(m);
      var k :| IsMinKey(m, k);
      assert (m - {k}).Keys == m.Keys - {k};
      [m[k]] + ValuesInKeyOrder(m - {k})
  }

  /** The listing starts with the value at the least key. */
  lemma ValuesInKeyOrderUnfold<T>(m: map<int, T>, k: int)
    requires IsMinKey(m, k)
    ensures ValuesInKeyOrder(m) == [m[k]] + ValuesInKeyOrder(m - {k})
  {
    assert |m| > 0 by { assert k in m.Keys; }
  }

  /** Removing the least key of a contiguous store leaves it contiguous,
      and its slice loses just the first element. */
  lemma SliceWithoutFirst<T>(m: map<int, T>, lo: int, hi: int)
    requires HasKeys(m, lo, hi) && lo <= hi
    ensures HasKeys(m - {lo}, lo + 1, hi)
    ensures Slice(m, lo, hi) == [m[lo]] + Slice(m - {lo}, lo + 1, hi)
  {
    var rest := m - {lo};
    var tail := Slice(rest, lo + 1, hi);
    forall i | 0 <= i <= hi - lo
      ensures Slice(m, lo, hi)[i] == ([m[lo]] + tail)[i]
    {
      if i > 0 {
        assert tail[i - 1] == rest[lo + 1 + (i - 1)];
      }
    }
  }

  /** On a store whose keys are exactly `lo..hi`, `Object.values` lists the
      elements at `lo`, `lo + 1`, ..., `hi`. */
  lemma {:induction false} ValuesInKeyOrderOfRange<T>(m: map<int, T>, lo: int, hi: int)
    requires HasKeys(m, lo, hi)
    ensures ValuesInKeyOrder(m) == Slice(m, lo, hi)
    decreases hi - lo
  {
    if lo > hi {
      NoMemberMeansEmpty(m.Keys);
      assert |m| == |m.Keys|;
    } else {
      SliceWithoutFirst(m, lo, hi);
      ValuesInKeyOrderOfRange(m - {lo}, lo + 1, hi);
      assert IsMinKey(m, lo);
      ValuesInKeyOrderUnfold(m, lo);
    }
  }

  /** The accumulator built by `enqueueFront`'s `reduce`: the value at
      position `idx + i` of the listing goes to key `idx + i + 2`. */
  function Reindex<T>(vals: seq<T>, acc: map<int, T>, idx: int): (r: map<int, T>)
    ensures forall k :: k in r <==> k in acc || idx + 2 <= k <= idx + 1 + |vals|
    ensures forall i :: 0 <= i < |vals| ==> r[idx + 2 + i] == vals[i]
    ensures forall k :: k in acc && !(idx + 2 <= k <= idx + 1 + |vals|) ==> r[k] == acc[k]
    decreases |vals|
  {
    if vals == [] then acc
    else Reindex(vals[1..], acc[idx + 2 := vals[0]], idx + 1)
  }

  /** The store `enqueueFront` rebuilds: `element` at key 1 and the listed
      values at keys 2, 3, ...; read back from key 1 it is the element
      followed by the listing. */
  function PrependStore<T>(vals: seq<T>, element: T): (r: map<int, T>)
    ensures HasKeys(r, 1, |vals| + 1)
    ensures Slice(r, 1, |vals| + 1) == [element] + vals
  {
    var r := Reindex(vals, map[1 := element], 0);
    assert Slice(r, 1, |vals| + 1) == [element] + vals by {
      forall i | 0 <= i < |vals| + 1
        ensures Slice(r, 1, |vals| + 1)[i] == ([element] + vals)[i]
      {
        if i > 0 {
          assert r[2 + (i - 1)] == vals[i - 1];
        }
      }
    }
    r
  }

  /** An iterator cursor walking up from `i`: it yields `m[i]`, `m[i + 1]`,
      ... and stops only once it has passed `hi`, testing before it reads. */
  function ScanUp<T>(m: map<int, T>, i: int, hi: int): (r: seq<Option<T>>)
    ensures |r| == if i <= hi then hi - i + 1 else 0
    ensures forall j :: 0 <= j < |r| ==> r[j] == Get(m, i + j)
    decreases hi - i + 1
  {
    if i > hi then [] else [Get(m, i)] + ScanUp(m, i + 1, hi)
  }

  /** An iterator cursor walking down from `i`: it yields `m[i]`, `m[i - 1]`,
      ... while the cursor is positive. */
  function ScanDown<T>(m: map<int, T>, i: int): (r: seq<Option<T>>)
    ensures |r| == if i > 0 then i else 0
    ensures forall j :: 0 <= j < |r| ==> r[j] == Get(m, i - j)
    decreases i
  {
    if i > 0 then [Get(m, i)] + ScanDown(m, i - 1) else []
  }
}
