/** The wait-list table as a value: its per-book positions, the three
    updates the handlers make to it (append at the end of a book's queue,
    leave, promote the head) and the invariant they keep: within each book,
    the positions of its N entries are N distinct numbers in 1..N. */
module WaitQueue {
  import opened Base
  import opened Entities

  function OfBook(b: nat): WaitEntry -> bool {
    (e: WaitEntry) => e.bookId == b
  }

  /** `waitList.count({ where: { bookId } })`. */
  function CountFor(w: seq<WaitEntry>, b: nat): nat {
    Count(w, OfBook(b))
  }

  /** Within each book, positions are distinct and lie in 1..(entries of that book). */
  ghost predicate Dense(w: seq<WaitEntry>) {
    && (forall i :: 0 <= i < |w| ==> 1 <= w[i].position <= CountFor(w, w[i].bookId))
    && (forall i, j :: 0 <= i < |w| && 0 <= j < |w| && i != j && w[i].bookId == w[j].bookId ==>
          w[i].position != w[j].position)
  }

  ghost predicate UniqueIds(w: seq<WaitEntry>) {
    forall i, j :: 0 <= i < |w| && 0 <= j < |w| && i != j ==> w[i].id != w[j].id
  }

  /** A user waits at most once for a given book. */
  ghost predicate OneEntryPerWaiter(w: seq<WaitEntry>) {
    forall i, j :: 0 <= i < |w| && 0 <= j < |w| && i != j && w[i].bookId == w[j].bookId ==>
      w[i].userId != w[j].userId
  }

  ghost predicate IdsBelow(w: seq<WaitEntry>, next: nat) {
    forall i :: 0 <= i < |w| ==> w[i].id < next
  }

  ghost predicate WellFormed(w: seq<WaitEntry>, next: nat) {
    Dense(w) && UniqueIds(w) && OneEntryPerWaiter(w) && IdsBelow(w, next)
  }

  /** Deleting row i. */
  function Removed(w: seq<WaitEntry>, i: nat): seq<WaitEntry>
    requires i < |w|
  {
    w[..i] + w[i + 1..]
  }

  function Shifted(e: WaitEntry, b: nat, p: int): WaitEntry {
    if e.bookId == b && e.position > p then e.(position := e.position - 1) else e
  }

  /** `updateMany({ where: { bookId: b, position: { gt: p } }, data: { position: { decrement: 1 } } })`. */
  function ShiftAfter(w: seq<WaitEntry>, b: nat, p: int): (r: seq<WaitEntry>)
    ensures |r| == |w|
  {
    seq(|w|, k requires 0 <= k < |w| => Shifted(w[k], b, p))
  }

  /** Leaving the queue: delete row i and close the gap behind it. */
  function Exit(w: seq<WaitEntry>, i: nat): seq<WaitEntry>
    requires i < |w|
  {
    ShiftAfter(Removed(w, i), w[i].bookId, w[i].position)
  }

  /** Promotion on return: delete row i and move every entry of its book
      with a position above 1 one place forward. */
  function Promote(w: seq<WaitEntry>, i: nat): seq<WaitEntry>
    requires i < |w|
  {
    ShiftAfter(Removed(w, i), w[i].bookId, 1)
  }

  /** `findFirst({ where: { bookId: b }, orderBy: { position: 'asc' } })`: the
      entry of book b with the lowest position, the earliest row among equals. */
  function HeadIndex(w: seq<WaitEntry>, b: nat): (r: Option<nat>)
    ensures r.Some? ==> r.value < |w| && w[r.value].bookId == b
    ensures r.Some? ==> forall j :: 0 <= j < |w| && w[j].bookId == b ==> w[r.value].position <= w[j].position
    ensures r.Some? ==> forall j :: 0 <= j < r.value && w[j].bookId == b ==> w[r.value].position < w[j].position
    ensures r.None? <==> forall j :: 0 <= j < |w| ==> w[j].bookId != b
  {
    if |w| == 0 then None
    else
      var h := HeadIndex(w[..|w| - 1], b);
      var last := |w| - 1;
      if w[last].bookId != b then h
      else if h.None? || w[last].position < w[h.value].position then Some(last)
      else h
  }

  lemma RemovedAt(w: seq<WaitEntry>, i: nat, k: nat)
    requires i < |w| && k < |w| - 1
    ensures Removed(w, i)[k] == if k < i then w[k] else w[k + 1]
  {
  }

  lemma {:induction false} CountSameBooks(u: seq<WaitEntry>, v: seq<WaitEntry>, b: nat)
    requires |u| == |v|
    requires forall k :: 0 <= k < |u| ==> u[k].bookId == v[k].bookId
    ensures CountFor(u, b) == CountFor(v, b)
  {
    if |u| > 0 {
      CountSameBooks(u[..|u| - 1], v[..|v| - 1], b);
    }
  }

  lemma CountShift(w: seq<WaitEntry>, b: nat, p: int, c: nat)
    ensures CountFor(ShiftAfter(w, b, p), c) == CountFor(w, c)
  {
    CountSameBooks(ShiftAfter(w, b, p), w, c);
  }

  lemma CountRemoved(w: seq<WaitEntry>, i: nat, c: nat)
    requires i < |w|
    ensures CountFor(Removed(w, i), c) + (if w[i].bookId == c then 1 else 0) == CountFor(w, c)
  {
    assert w == w[..i] + [w[i]] + w[i + 1..];
    CountAppend(w[..i] + [w[i]], w[i + 1..], OfBook(c));
    CountAppend(w[..i], [w[i]], OfBook(c));
    CountAppend(w[..i], w[i + 1..], OfBook(c));
    assert [w[i]][..0] == [];
  }

  lemma CountAppendOne(w: seq<WaitEntry>, e: WaitEntry, c: nat)
    ensures CountFor(w + [e], c) == CountFor(w, c) + (if e.bookId == c then 1 else 0)
  {
    assert (w + [e])[..|w|] == w;
  }

  /** Where row k of `Exit(w, i)` comes from. */
  lemma ExitSource(w: seq<WaitEntry>, i: nat, k: nat) returns (m: nat)
    requires i < |w| && k < |w| - 1
    ensures m < |w| && m != i && m == (if k < i then k else k + 1)
    ensures Exit(w, i)[k] == Shifted(w[m], w[i].bookId, w[i].position)
  {
    RemovedAt(w, i, k);
    m := if k < i then k else k + 1;
  }

  /** Leaving keeps the table well formed: the entries of the book that move
      up fill the freed position, and no other entry changes. */
  lemma ExitKeepsWellFormed(w: seq<WaitEntry>, i: nat, next: nat)
    requires WellFormed(w, next) && i < |w|
    ensures WellFormed(Exit(w, i), next)
  {
    ExitBounds(w, i, next);
    ExitPairs(w, i, next);
  }

  /** Leaving takes one entry off the departing entry's book and none off the others. */
  lemma ExitCounts(w: seq<WaitEntry>, i: nat)
    requires i < |w|
    ensures forall c: nat :: CountFor(Exit(w, i), c) == CountFor(w, c) - (if c == w[i].bookId then 1 else 0)
  {
    var b, p := w[i].bookId, w[i].position;
    forall c: nat
      ensures CountFor(Exit(w, i), c) == CountFor(w, c) - (if c == b then 1 else 0)
    {
      CountRemoved(w, i, c);
      CountShift(Removed(w, i), b, p, c);
    }
  }

  /** After leaving, every position lies in 1..(entries of its book) and
      every id is still below the next one. */
  lemma ExitBounds(w: seq<WaitEntry>, i: nat, next: nat)
    requires WellFormed(w, next) && i < |w|
    ensures var r := Exit(w, i);
      (forall k :: 0 <= k < |r| ==> 1 <= r[k].position <= CountFor(r, r[k].bookId)) && IdsBelow(r, next)
  {
    var b, p := w[i].bookId, w[i].position;
    var r := Exit(w, i);
    ExitCounts(w, i);
    forall k | 0 <= k < |r|
      ensures 1 <= r[k].position <= CountFor(r, r[k].bookId)
      ensures r[k].id < next
    {
      var m := ExitSource(w, i, k);
      assert r[k].bookId == w[m].bookId;
      if w[m].bookId == b {
        assert w[m].position != p;
      }
    }
  }

  /** After leaving, ids stay distinct, and within a book so do positions and users. */
  lemma ExitPairs(w: seq<WaitEntry>, i: nat, next: nat)
    requires WellFormed(w, next) && i < |w|
    ensures var r := Exit(w, i);
      && UniqueIds(r) && OneEntryPerWaiter(r)
      && (forall k, l :: 0 <= k < |r| && 0 <= l < |r| && k != l && r[k].bookId == r[l].bookId ==>
            r[k].position != r[l].position)
  {
    var b, p := w[i].bookId, w[i].position;
    var r := Exit(w, i);
    forall k, l | 0 <= k < |r| && 0 <= l < |r| && k != l
      ensures r[k].id != r[l].id
      ensures r[k].bookId == r[l].bookId ==> r[k].position != r[l].position && r[k].userId != r[l].userId
    {
      var mk := ExitSource(w, i, k);
      var ml := ExitSource(w, i, l);
      assert mk != ml;
      if r[k].bookId == r[l].bookId && r[k].bookId == b {
        assert w[mk].position != p && w[ml].position != p;
      }
    }
  }

  /** The source decrements every position above 1 where leaving decrements
      only the positions above the departing entry's; for the head of a dense
      queue the two coincide. */
  lemma PromoteIsExit(w: seq<WaitEntry>, i: nat)
    requires Dense(w) && i < |w|
    requires forall j :: 0 <= j < |w| && w[j].bookId == w[i].bookId ==> w[i].position <= w[j].position
    ensures Promote(w, i) == Exit(w, i)
  {
    var b, p := w[i].bookId, w[i].position;
    var v := Removed(w, i);
    forall k | 0 <= k < |v|
      ensures Shifted(v[k], b, 1) == Shifted(v[k], b, p)
    {
      RemovedAt(w, i, k);
      var m := if k < i then k else k + 1;
      if v[k].bookId == b {
        assert w[m].position != p;
      }
    }
  }

  lemma PromoteKeepsWellFormed(w: seq<WaitEntry>, b: nat, next: nat)
    requires WellFormed(w, next) && HeadIndex(w, b).Some?
    ensures WellFormed(Promote(w, HeadIndex(w, b).value), next)
  {
    var i := HeadIndex(w, b).value;
    PromoteIsExit(w, i);
    ExitKeepsWellFormed(w, i, next);
  }

  /** Entering appends at position (entries of the book) + 1. */
  lemma EnterKeepsWellFormed(w: seq<WaitEntry>, e: WaitEntry, next: nat)
    requires WellFormed(w, next)
    requires e.id == next && e.position == CountFor(w, e.bookId) + 1
    requires forall k :: 0 <= k < |w| && w[k].bookId == e.bookId ==> w[k].userId != e.userId
    ensures WellFormed(w + [e], next + 1)
  {
    var r := w + [e];
    forall c: nat
      ensures CountFor(r, c) == CountFor(w, c) + (if e.bookId == c then 1 else 0)
    {
      CountAppendOne(w, e, c);
    }
  }

  /** Joining and then leaving again gives the queue back unchanged: the
      newcomer is last, so nobody is behind it to move up. */
  lemma EnterThenExit(w: seq<WaitEntry>, e: WaitEntry)
    requires Dense(w) && e.position == CountFor(w, e.bookId) + 1
    ensures Exit(w + [e], |w|) == w
  {
    var v := w + [e];
    assert Removed(v, |w|) == w;
    forall k | 0 <= k < |w|
      ensures Shifted(w[k], e.bookId, e.position) == w[k]
    {
    }
  }

  /** A row other than the departing one, of another book, survives unchanged. */
  lemma ExitKeepsOtherBooks(w: seq<WaitEntry>, i: nat, m: nat)
    requires i < |w| && m < |w| && m != i && w[m].bookId != w[i].bookId
    ensures w[m] in Exit(w, i)
  {
    var k := if m < i then m else m - 1;
    RemovedAt(w, i, k);
    assert Exit(w, i)[k] == w[m];
  }
}
