/** Keyset paging, shared by both listings: pages in (created_at DESC, id DESC) order, one row over the
    limit fetched to learn whether another page exists, and the last row of a page as the next cursor. */
module Paging {
  import opened Common

  /** What a listing orders by. */
  datatype Key = Key(createdAt: int, id: string)

  /** A position in that order; without an id it points nowhere. */
  datatype Cursor = Cursor(createdAt: int, id: string) {
    predicate Set() { id != "" }
  }

  const ZERO := Cursor(0, "")

  predicate Precedes(a: Key, b: Key) {
    a.createdAt > b.createdAt || (a.createdAt == b.createdAt && StrLess(b.id, a.id))
  }

  /** The clause a set cursor adds: `created_at < ? OR (created_at = ? AND id < ?)`. */
  predicate Beyond(c: Cursor, k: Key) {
    c.Set() ==> k.createdAt < c.createdAt || (k.createdAt == c.createdAt && StrLess(k.id, c.id))
  }

  function Clamp(limit: int): (r: nat)
    ensures 1 <= r <= 200
    ensures 1 <= limit <= 200 ==> r == limit
    ensures limit <= 0 ==> r == 50
    ensures limit > 200 ==> r == 200
  {
    if limit <= 0 then 50 else if limit > 200 then 200 else limit
  }

  predicate IsFirst(keys: set<Key>, k: Key) {
    k in keys && forall other | other in keys && other != k :: Precedes(k, other)
  }

  lemma Totality(a: Key, b: Key)
    ensures a == b || Precedes(a, b) || Precedes(b, a)
    ensures !(Precedes(a, b) && Precedes(b, a))
  {
    StrLessIsTotal(a.id, b.id);
  }

  lemma Transitivity(a: Key, b: Key, c: Key)
    requires Precedes(a, b) && Precedes(b, c)
    ensures Precedes(a, c)
  {
    if a.createdAt == c.createdAt {
      StrLessIsTransitive(c.id, b.id, a.id);
    }
  }

  lemma {:induction false} FirstExists(keys: set<Key>) returns (k: Key)
    requires keys != {}
    ensures IsFirst(keys, k)
  {
    k :| k in keys;
    if keys != {k} {
      var best := FirstExists(keys - {k});
      Totality(k, best);
      if Precedes(k, best) {
        forall other | other in keys && other != k ensures Precedes(k, other) {
          if other != best {
            assert other in keys - {k};
            Transitivity(k, best, other);
          }
        }
      } else {
        k := best;
      }
    }
  }

  lemma FirstIsUnique(keys: set<Key>)
    requires keys != {}
    ensures exists k :: IsFirst(keys, k)
    ensures forall a, b | IsFirst(keys, a) && IsFirst(keys, b) :: a == b
  {
    var k := FirstExists(keys);
    forall a, b | IsFirst(keys, a) && IsFirst(keys, b) ensures a == b {
      Totality(a, b);
    }
  }

  /** `ORDER BY created_at DESC, id DESC`. */
  function Desc(keys: set<Key>): seq<Key> {
    if keys == {} then []
    else
      FirstIsUnique(keys);
      var k :| IsFirst(keys, k);
      [k] + Desc(keys - {k})
  }

  predicate Descending(list: seq<Key>) {
    list != [] ==> (forall k | k in list[1..] :: Precedes(list[0], k)) && Descending(list[1..])
  }

  lemma {:induction false} DescIs(keys: set<Key>)
    ensures Descending(Desc(keys)) && |Desc(keys)| == |keys|
    ensures forall k :: k in Desc(keys) <==> k in keys
  {
    if keys != {} {
      FirstIsUnique(keys);
      var k :| IsFirst(keys, k);
      DescIs(keys - {k});
      assert Desc(keys)[1..] == Desc(keys - {k});
    }
  }

  lemma {:induction false} DescendingAt(list: seq<Key>, i: nat, j: nat)
    requires Descending(list) && i < j < |list|
    ensures Precedes(list[i], list[j]) && list[i] != list[j]
  {
    if i == 0 {
      assert list[1..][j - 1] == list[j];
      Totality(list[0], list[j]);
    } else {
      DescendingAt(list[1..], i - 1, j - 1);
    }
  }

  lemma {:induction false} DescendingConcat(a: seq<Key>, b: seq<Key>)
    requires Descending(a) && Descending(b)
    requires forall x, y | x in a && y in b :: Precedes(x, y)
    ensures Descending(a + b)
  {
    if a == [] {
      assert a + b == b;
    } else {
      DescendingConcat(a[1..], b);
      assert (a + b)[1..] == a[1..] + b;
    }
  }

  lemma {:induction false} DescendingPrefix(list: seq<Key>, n: nat)
    requires Descending(list) && n <= |list|
    ensures Descending(list[..n])
  {
    if n > 0 {
      DescendingPrefix(list[1..], n - 1);
      assert list[..n][1..] == list[1..][..n - 1];
    }
  }

  /** A descending list is determined by its elements. */
  lemma {:induction false} DescendingIsCanonical(a: seq<Key>, b: seq<Key>)
    requires Descending(a) && Descending(b) && forall k :: k in a <==> k in b
    ensures a == b
  {
    assert a != [] ==> a[0] in b;
    assert b != [] ==> b[0] in a;
    if a != [] && b != [] {
      Totality(a[0], b[0]);
      assert a[0] == b[0];
      forall k ensures k in a[1..] <==> k in b[1..] {
        Totality(a[0], k);
        assert k in a <==> k == a[0] || k in a[1..];
        assert k in b <==> k == b[0] || k in b[1..];
      }
      DescendingIsCanonical(a[1..], b[1..]);
    }
  }

  // ---- One page -----------------------------------------------------------------------------------

  function Rest(keys: set<Key>, c: Cursor): set<Key> {
    set k | k in keys && Beyond(c, k)
  }

  /** `... AND <beyond the cursor> ORDER BY ... LIMIT n` over the rows matching the filter. */
  function Select(keys: set<Key>, c: Cursor, n: nat): seq<Key> {
    var found := Desc(Rest(keys, c));
    if |found| <= n then found else found[..n]
  }

  datatype Page = Page(rows: seq<Key>, next: Cursor)

  function Fetch(keys: set<Key>, c: Cursor, limit: nat): Page
    requires limit >= 1
  {
    var found := Select(keys, c, limit + 1);
    if |found| > limit then Page(found[..limit], Cursor(found[limit - 1].createdAt, found[limit - 1].id))
    else Page(found, ZERO)
  }

  function At(k: Key): Cursor { Cursor(k.createdAt, k.id) }

  /** Ids are never empty, so a cursor made from a row is always set. */
  predicate Named(keys: set<Key>) { forall k | k in keys :: k.id != "" }

  /** What a cut of a descending list leaves out comes after all it keeps. */
  lemma CutOff(list: seq<Key>, n: nat, k: Key)
    requires Descending(list) && 1 <= n <= |list| && k in list && k !in list[..n]
    ensures Precedes(list[n - 1], k) && n < |list|
  {
    var j :| 0 <= j < |list| && list[j] == k;
    forall i | 0 <= i < n ensures list[i] in list[..n] {
      assert list[..n][i] == list[i];
    }
    DescendingAt(list, n - 1, j);
  }

  /** The first `limit` matching rows beyond the cursor. There is a next page exactly when matching rows
      are left over, and then whatever the page leaves out lies beyond its own last row. */
  predicate IsPage(p: Page, keys: set<Key>, c: Cursor, limit: nat) {
    && Descending(p.rows) && |p.rows| <= limit
    && (forall k | k in p.rows :: k in keys && Beyond(c, k))
    && (p.next.Set() <==> |Rest(keys, c)| > limit)
    && (p.next.Set() ==> |p.rows| == limit >= 1 && p.next == At(p.rows[limit - 1]))
    && (forall k | k in keys && Beyond(c, k) && k !in p.rows :: p.next.Set() && Beyond(p.next, k))
  }

  lemma FullPageIs(found: seq<Key>, keys: set<Key>, c: Cursor, limit: nat)
    requires limit >= 1 && Named(keys) && Descending(found) && |found| == |Rest(keys, c)| > limit
    requires forall k :: k in found <==> k in keys && Beyond(c, k)
    ensures IsPage(Page(found[..limit], At(found[limit - 1])), keys, c, limit)
  {
    DescendingPrefix(found, limit);
    assert found[limit - 1] in found;
    forall k | k in keys && Beyond(c, k) && k !in found[..limit] ensures Beyond(At(found[limit - 1]), k) {
      CutOff(found, limit, k);
    }
  }

  lemma PageIs(keys: set<Key>, c: Cursor, limit: nat)
    requires limit >= 1 && Named(keys)
    ensures IsPage(Fetch(keys, c, limit), keys, c, limit)
  {
    var found := Desc(Rest(keys, c));
    DescIs(Rest(keys, c));
    assert forall k :: k in found <==> k in keys && Beyond(c, k);
    if |found| > limit {
      var sel := Select(keys, c, limit + 1);
      assert sel[..limit] == found[..limit] && sel[limit - 1] == found[limit - 1];
      FullPageIs(found, keys, c, limit);
    }
  }

  /** A page holds matching rows only, and all of them beyond the cursor when it is short. */
  lemma ShortPage(keys: set<Key>, c: Cursor, limit: nat)
    requires limit >= 1
    ensures var p := Fetch(keys, c, limit);
      && (forall k | k in p.rows :: k in keys)
      && (|p.rows| < limit ==> forall k | k in keys && Beyond(c, k) :: k in p.rows)
  {
    hide Desc, Beyond;
    var found := Desc(Rest(keys, c));
    DescIs(Rest(keys, c));
    var p := Fetch(keys, c, limit);
    assert p.rows == if |found| <= limit then found else found[..limit];
    forall k | k in p.rows ensures k in keys {
      assert k in found;
    }
  }

  /** A page in terms of the columns: newest first and ties by id downwards; nothing that is not older than
      the cursor; and what it leaves out is older than its last row, which is then the next cursor. */
  lemma PageInColumns(keys: set<Key>, c: Cursor, limit: nat)
    requires limit >= 1 && Named(keys)
    ensures var p := Fetch(keys, c, limit);
      && |p.rows| <= limit
      && (forall k | k in p.rows :: k in keys &&
            (c.id != "" ==> k.createdAt < c.createdAt || (k.createdAt == c.createdAt && StrLess(k.id, c.id))))
      && (forall i, j | 0 <= i < j < |p.rows| ::
            || p.rows[i].createdAt > p.rows[j].createdAt
            || (p.rows[i].createdAt == p.rows[j].createdAt && StrLess(p.rows[j].id, p.rows[i].id)))
      && (p.next.id != "" <==> exists k :: LeftOut(p.rows, keys, c, k))
      && (forall k | LeftOut(p.rows, keys, c, k) ::
            && |p.rows| == limit
            && (var last := p.rows[limit - 1];
                && p.next == Cursor(last.createdAt, last.id)
                && (k.createdAt < last.createdAt || (k.createdAt == last.createdAt && StrLess(k.id, last.id)))))
  {
    PageIs(keys, c, limit);
    var p := Fetch(keys, c, limit);
    forall i, j | 0 <= i < j < |p.rows| ensures Precedes(p.rows[i], p.rows[j]) {
      DescendingAt(p.rows, i, j);
    }
    if p.next.Set() {
      var k := SomeLeft(p.rows, Rest(keys, c));
      assert LeftOut(p.rows, keys, c, k);
    }
    forall k | LeftOut(p.rows, keys, c, k) ensures p.next.Set() && Beyond(p.next, k) {
      assert Beyond(c, k);
    }
  }

  /** A matching row older than the cursor that is not on the page. */
  predicate LeftOut(rows: seq<Key>, keys: set<Key>, c: Cursor, k: Key) {
    && k in keys && k !in rows
    && (c.id != "" ==> k.createdAt < c.createdAt || (k.createdAt == c.createdAt && StrLess(k.id, c.id)))
  }

  lemma SomeLeft(rows: seq<Key>, keys: set<Key>) returns (k: Key)
    requires |keys| > |rows|
    ensures k in keys && k !in rows
  {
    if forall x | x in keys :: x in rows {
      RowsBound(rows, keys);
    }
    k :| k in keys && k !in rows;
  }

  lemma {:induction false} RowsBound(rows: seq<Key>, keys: set<Key>)
    requires forall k | k in keys :: k in rows
    ensures |keys| <= |rows|
  {
    if rows != [] {
      var n := |rows| - 1;
      assert rows == rows[..n] + [rows[n]];
      RowsBound(rows[..n], keys - {rows[n]});
    } else {
      assert keys == {};
    }
  }

  // ---- A walk: following `next` while the table changes ---------------------------------------------

  /** What one request of a walk finds: the keys of the rows that match at that moment, and its limit. */
  datatype Look = Look(keys: set<Key>, limit: nat)

  predicate ValidLooks(looks: seq<Look>) {
    forall l | l in looks :: l.limit >= 1 && Named(l.keys)
  }

  /** The cursor after the looks. */
  function CursorAfter(looks: seq<Look>): Cursor
    requires ValidLooks(looks)
  {
    if looks == [] then ZERO
    else var n := |looks| - 1; Fetch(looks[n].keys, CursorAfter(looks[..n]), looks[n].limit).next
  }

  /** All rows returned, in order. */
  function Returned(looks: seq<Look>): seq<Key>
    requires ValidLooks(looks)
  {
    if looks == [] then []
    else
      var n := |looks| - 1;
      Returned(looks[..n]) + Fetch(looks[n].keys, CursorAfter(looks[..n]), looks[n].limit).rows
  }

  /** Each request after the first follows a cursor that was handed out. */
  predicate IsWalk(looks: seq<Look>) {
    && ValidLooks(looks)
    && (|looks| > 1 ==> IsWalk(looks[..|looks| - 1]) && CursorAfter(looks[..|looks| - 1]).Set())
  }

  predicate Complete(looks: seq<Look>) {
    IsWalk(looks) && looks != [] && !CursorAfter(looks).Set()
  }

  /** A page after a cursor continues the list that ends at it. */
  lemma Continues(done: seq<Key>, rows: seq<Key>)
    requires Descending(done) && Descending(rows)
    requires done != [] ==> At(done[|done| - 1]).Set() && forall k | k in rows :: Beyond(At(done[|done| - 1]), k)
    ensures Descending(done + rows)
  {
    forall x, y | x in done && y in rows ensures Precedes(x, y) {
      var last := |done| - 1;
      assert Precedes(done[last], y);
      var i :| 0 <= i < |done| && done[i] == x;
      if i < last {
        DescendingAt(done, i, last);
        Transitivity(x, done[last], y);
      }
    }
    DescendingConcat(done, rows);
  }

  lemma ShorterWalk(looks: seq<Look>)
    requires IsWalk(looks) && looks != []
    ensures IsWalk(looks[..|looks| - 1])
    ensures |looks| > 1 ==> CursorAfter(looks[..|looks| - 1]).Set()
  {
    if |looks| == 1 { assert looks[..0] == []; }
  }

  /** Invariant of a walk: what was returned descends, and the cursor is its last row. */
  lemma {:induction false} WalkDescends(looks: seq<Look>)
    requires IsWalk(looks)
    ensures Descending(Returned(looks))
    ensures CursorAfter(looks).Set() ==>
      Returned(looks) != [] && CursorAfter(looks) == At(Returned(looks)[|Returned(looks)| - 1])
  {
    hide Fetch, CursorAfter, Returned, Rest, Beyond, Descending, Named, Precedes;
    if looks == [] {
      NothingReturned(looks);
    } else {
      var n := |looks| - 1;
      LastLook(looks);
      ShorterWalk(looks);
      WalkDescends(looks[..n]);
      var c, done := CursorAfter(looks[..n]), Returned(looks[..n]);
      PageIs(looks[n].keys, c, looks[n].limit);
      if n == 0 { NothingReturned(looks[..n]); }
      Continues(done, Fetch(looks[n].keys, c, looks[n].limit).rows);
    }
  }

  /** No walk returns the same row twice, whatever is inserted, deleted or changes status between its
      requests, provided a row keeps its creation time. */
  lemma NothingTwice(looks: seq<Look>, i: nat, j: nat)
    requires IsWalk(looks) && i < j < |Returned(looks)|
    requires forall l, m | l in looks && m in looks ::
      forall a, b | a in l.keys && b in m.keys :: a.id == b.id ==> a == b
    ensures Returned(looks)[i].id != Returned(looks)[j].id
  {
    WalkDescends(looks);
    DescendingAt(Returned(looks), i, j);
    var a := ReturnedFrom(looks, i);
    var b := ReturnedFrom(looks, j);
  }

  lemma LastLook(looks: seq<Look>)
    requires ValidLooks(looks) && looks != []
    ensures var n := |looks| - 1; var l := looks[n];
      && l in looks && l.limit >= 1 && Named(l.keys) && ValidLooks(looks[..n])
      && Returned(looks) == Returned(looks[..n]) + Fetch(l.keys, CursorAfter(looks[..n]), l.limit).rows
      && CursorAfter(looks) == Fetch(l.keys, CursorAfter(looks[..n]), l.limit).next
  {
    hide Fetch, Named;
  }

  /** The look a returned row came from. */
  lemma {:induction false} ReturnedFrom(looks: seq<Look>, i: nat) returns (l: Look)
    requires ValidLooks(looks) && i < |Returned(looks)|
    ensures l in looks && Returned(looks)[i] in l.keys
  {
    NoLooks(looks);
    LastLook(looks);
    hide Fetch, Rest, Beyond, Descending, CursorAfter, Returned, Named;
    var n := |looks| - 1;
    var done := Returned(looks[..n]);
    if i < |done| {
      l := ReturnedFrom(looks[..n], i);
    } else {
      l := looks[n];
      PageIs(l.keys, CursorAfter(looks[..n]), l.limit);
      InSecond(done, Fetch(l.keys, CursorAfter(looks[..n]), l.limit).rows, i);
    }
  }

  lemma InSecond(a: seq<Key>, b: seq<Key>, i: nat)
    requires |a| <= i < |a + b|
    ensures (a + b)[i] in b
  {
    assert (a + b)[i] == b[i - |a|];
  }

  lemma NoLooks(looks: seq<Look>)
    requires ValidLooks(looks) && |Returned(looks)| > 0
    ensures looks != []
  {
  }

  /** A row that matches at every request is either already returned or still ahead of the cursor. */
  lemma {:induction false} StillAhead(looks: seq<Look>, k: Key)
    requires IsWalk(looks) && forall l | l in looks :: k in l.keys
    ensures k in Returned(looks) || looks == [] || (CursorAfter(looks).Set() && Beyond(CursorAfter(looks), k))
  {
    if looks != [] {
      var n := |looks| - 1;
      assert IsWalk(looks[..n]) by { if n == 0 { assert looks[..n] == []; } }
      StillAhead(looks[..n], k);
      assert looks[n] in looks;
      PageIs(looks[n].keys, CursorAfter(looks[..n]), looks[n].limit);
    }
  }

  /** A row present and matching throughout a complete walk is returned, exactly once. */
  lemma {:induction false} NothingMissed(looks: seq<Look>, k: Key)
    requires Complete(looks) && forall l | l in looks :: k in l.keys
    ensures exists i | 0 <= i < |Returned(looks)| ::
      Returned(looks)[i] == k && forall j | 0 <= j < |Returned(looks)| && j != i :: Returned(looks)[j] != k
  {
    StillAhead(looks, k);
    WalkDescends(looks);
    var i :| 0 <= i < |Returned(looks)| && Returned(looks)[i] == k;
    forall j | 0 <= j < |Returned(looks)| && j != i ensures Returned(looks)[j] != k {
      if i < j { DescendingAt(Returned(looks), i, j); } else { DescendingAt(Returned(looks), j, i); }
    }
  }

  // ---- A table that does not change -----------------------------------------------------------------

  predicate Still(looks: seq<Look>, keys: set<Key>, limit: nat) {
    forall l | l in looks :: l == Look(keys, limit)
  }

  lemma OneMore(n: nat, limit: nat)
    ensures (n + 1) * limit == n * limit + limit
  {
  }

  /** The last request of a walk adds its page. */
  lemma LastPage(looks: seq<Look>, keys: set<Key>, limit: nat)
    requires IsWalk(looks) && Still(looks, keys, limit) && looks != []
    ensures var n := |looks| - 1; var c := CursorAfter(looks[..n]);
      && limit >= 1 && Named(keys) && ValidLooks(looks[..n]) && IsWalk(looks[..n]) && Still(looks[..n], keys, limit)
      && (n > 0 ==> CursorAfter(looks[..n]).Set())
      && Returned(looks) == Returned(looks[..n]) + Fetch(keys, c, limit).rows
      && CursorAfter(looks) == Fetch(keys, c, limit).next
  {
    hide Fetch, Beyond;
    var n := |looks| - 1;
    assert looks[n] in looks && forall l | l in looks[..n] :: l in looks;
    ShorterWalk(looks);
  }

  lemma {:induction false} FullPages(looks: seq<Look>, keys: set<Key>, limit: nat)
    requires IsWalk(looks) && Still(looks, keys, limit) && looks != [] && CursorAfter(looks).Set()
    ensures |Returned(looks)| == |looks| * limit
  {
    hide Fetch, Rest, Beyond, Descending, IsWalk, CursorAfter, Returned, Still, Named;
    var n := |looks| - 1;
    LastPage(looks, keys, limit);
    PageIs(keys, CursorAfter(looks[..n]), limit);
    OneMore(n, limit);
    if n > 0 {
      FullPages(looks[..n], keys, limit);
    } else {
      NothingReturned(looks[..n]);
    }
  }

  lemma NothingReturned(looks: seq<Look>)
    requires looks == []
    ensures ValidLooks(looks) && Returned(looks) == [] && CursorAfter(looks) == ZERO && Descending(Returned(looks))
  {
  }

  lemma {:induction false} RowsWithin(rows: seq<Key>, keys: set<Key>)
    requires Descending(rows) && forall k | k in rows :: k in keys
    ensures |rows| <= |keys|
  {
    if rows != [] {
      Totality(rows[0], rows[0]);
      assert forall k | k in rows[1..] :: k in rows;
      RowsWithin(rows[1..], keys - {rows[0]});
    }
  }

  /** What lies beyond the cursor of a walk has not been returned. */
  lemma NotYetReturned(looks: seq<Look>, k: Key)
    requires IsWalk(looks) && CursorAfter(looks).Set() && Beyond(CursorAfter(looks), k)
    ensures k !in Returned(looks)
  {
    WalkDescends(looks);
    var done := Returned(looks);
    var last := done[|done| - 1];
    forall i | 0 <= i < |done| ensures done[i] != k {
      Totality(last, k);
      if i < |done| - 1 { DescendingAt(done, i, |done| - 1); }
    }
  }

  /** While a walk over an unchanging table is offered a next page, it has returned full pages only and
      has not run out of rows: so it is complete after at most |keys| / limit + 1 requests. */
  lemma {:induction false} WalkCompletes(looks: seq<Look>, keys: set<Key>, limit: nat)
    requires IsWalk(looks) && Still(looks, keys, limit) && looks != [] && |looks| * limit >= |keys|
    ensures Complete(looks)
  {
    hide Fetch, Rest, Beyond, Descending, Returned, CursorAfter, Precedes;
    if CursorAfter(looks).Set() {
      FullPages(looks, keys, limit);
      assert looks[0] in looks;
      NextPageNotEmpty(looks, keys, limit);
      var c := CursorAfter(looks);
      PageIs(keys, c, limit);
      var k := Fetch(keys, c, limit).rows[0];
      assert k in Fetch(keys, c, limit).rows;
      WalkDescends(looks);
      NotYetReturned(looks, k);
      forall r | r in Returned(looks) ensures r in keys - {k} {
        ReturnedWithin(looks, keys, limit, r);
      }
      RowsWithin(Returned(looks), keys - {k});
    }
  }

  lemma ReturnedWithin(looks: seq<Look>, keys: set<Key>, limit: nat, k: Key)
    requires IsWalk(looks) && Still(looks, keys, limit) && k in Returned(looks)
    ensures k in keys
  {
    var i :| 0 <= i < |Returned(looks)| && Returned(looks)[i] == k;
    var l := ReturnedFrom(looks, i);
  }

  /** On an unchanging table a complete walk returns the sorted list, in the least number of pages of
      that size that can hold it: one when nothing matches, otherwise ceil(n / limit). */
  lemma {:induction false} StaticWalk(looks: seq<Look>, keys: set<Key>, limit: nat)
    requires Complete(looks) && Still(looks, keys, limit)
    ensures Returned(looks) == Desc(keys)
    ensures keys == {} ==> |looks| == 1
    ensures keys != {} ==> (|looks| - 1) * limit < |keys| <= |looks| * limit
  {
    WalkDescends(looks);
    DescIs(keys);
    forall k ensures k in Returned(looks) <==> k in Desc(keys) {
      if k in keys { StillAhead(looks, k); }
      if k in Returned(looks) { ReturnedWithin(looks, keys, limit, k); }
    }
    DescendingIsCanonical(Returned(looks), Desc(keys));
    PageCount(looks, keys, limit);
  }

  lemma PageCount(looks: seq<Look>, keys: set<Key>, limit: nat)
    requires Complete(looks) && Still(looks, keys, limit) && |Returned(looks)| == |keys|
    ensures keys == {} ==> |looks| == 1
    ensures keys != {} ==> (|looks| - 1) * limit < |keys| <= |looks| * limit
  {
    hide Fetch, Rest, Beyond, Descending;
    var n := |looks| - 1;
    assert looks[n] in looks;
    var p := Fetch(keys, CursorAfter(looks[..n]), limit);
    PageIs(keys, CursorAfter(looks[..n]), limit);
    assert Returned(looks) == Returned(looks[..n]) + p.rows;
    ShorterWalk(looks);
    if n == 0 {
      assert Returned(looks[..n]) == [];
    } else {
      assert forall l | l in looks[..n] :: l in looks;
      FullPages(looks[..n], keys, limit);
      NextPageNotEmpty(looks[..n], keys, limit);
    }
    assert (n + 1) * limit == n * limit + limit;
  }

  /** A next page is only offered when it has something to show. */
  lemma NextPageNotEmpty(looks: seq<Look>, keys: set<Key>, limit: nat)
    requires IsWalk(looks) && Still(looks, keys, limit) && looks != [] && CursorAfter(looks).Set()
    requires limit >= 1 && Named(keys)
    ensures Fetch(keys, CursorAfter(looks), limit).rows != []
  {
    var n := |looks| - 1;
    assert looks[n] in looks;
    var c := CursorAfter(looks[..n]);
    var p := Fetch(keys, c, limit);
    PageIs(keys, c, limit);
    var rest, shown := Rest(keys, c), set k | k in p.rows;
    FewInPage(p.rows);
    if rest <= shown {
      SubsetNotLarger(rest, shown);
    }
    var k :| k in rest && k !in shown;
    PageIs(keys, p.next, limit);
  }

  lemma {:induction false} FewInPage(rows: seq<Key>)
    ensures |set k | k in rows| <= |rows|
  {
    if rows != [] {
      FewInPage(rows[1..]);
      assert (set k | k in rows) == {rows[0]} + set k | k in rows[1..];
    }
  }
}
