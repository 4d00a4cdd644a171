/** One polling cycle of the relay (main.py:63-73): walk the fetched memos in
    order and relay every memo whose creation time is later than the cursor,
    moving the cursor to that memo's time. */
module Relay {
  import opened Options
  import opened Fetch

  /** The text sent for a memo that has no content. */
  const Placeholder: string := "No content"

  /** The text relayed for a memo: its content, or the placeholder. */
  function Text(m: Memo): string {
    match m.content
    case Some(s) => s
    case None => Placeholder
  }

  /** The test of main.py:69: no cursor yet, or a strictly later time. */
  predicate IsNew(m: Memo, cursor: Option<int>) {
    cursor.None? || m.createTime > cursor.value
  }

  /** The texts relayed so far in a cycle and the cursor reached. */
  datatype CycleResult = CycleResult(sent: seq<string>, cursor: Option<int>)

  /** One turn of the loop body on one memo. */
  function Step(r: CycleResult, m: Memo): CycleResult {
    if IsNew(m, r.cursor) then CycleResult(r.sent + [Text(m)], Some(m.createTime)) else r
  }

  /** The cycle over memos from a given cursor, as a function; it takes the
      memos in order, so it is defined by peeling off the last one. */
  function Cycle(memos: seq<Memo>, cursor: Option<int>): (r: CycleResult)
    ensures |r.sent| <= |memos|
    decreases |memos|
  {
    if memos == [] then CycleResult([], cursor)
    else Step(Cycle(memos[..|memos| - 1], cursor), memos[|memos| - 1])
  }

  /** a is at least as far along as b: b unset, or both set and a >= b. */
  predicate NotBehind(a: Option<int>, b: Option<int>) {
    b.None? || (a.Some? && a.value >= b.value)
  }

  /** b is the latest of the starting cursor and all creation times in memos,
      and is unset only when both are absent. */
  ghost predicate IsLatest(b: Option<int>, cursor: Option<int>, memos: seq<Memo>) {
    (b.None? <==> cursor.None? && memos == []) &&
    (b.Some? ==>
      NotBehind(b, cursor) &&
      (forall j :: 0 <= j < |memos| ==> memos[j].createTime <= b.value) &&
      (b == cursor || exists j :: 0 <= j < |memos| && memos[j].createTime == b.value))
  }

  /** Memo i is a new high: later than the starting cursor (if any) and
      strictly later than every memo before it in the list. */
  ghost predicate Relayable(memos: seq<Memo>, cursor: Option<int>, i: int)
    requires 0 <= i < |memos|
  {
    (cursor.None? || memos[i].createTime > cursor.value) &&
    forall j :: 0 <= j < i ==> memos[j].createTime < memos[i].createTime
  }

  /** The positions of the relayed memos, in list order. */
  ghost function RelayedIndices(memos: seq<Memo>, cursor: Option<int>): (ix: seq<int>)
    ensures forall k :: 0 <= k < |ix| ==> 0 <= ix[k] < |memos|
    decreases |memos|
  {
    if memos == [] then []
    else
      var n := |memos| - 1;
      RelayedIndices(memos[..n], cursor) + if Relayable(memos, cursor, n) then [n] else []
  }

  /** The loop of main.py:66-73, with the cursor held in a local variable. */
  method ProcessCycle(memos: seq<Memo>, cursor: Option<int>) returns (sent: seq<string>, cursor': Option<int>)
    ensures CycleResult(sent, cursor') == Cycle(memos, cursor)
    ensures IsLatest(cursor', cursor, memos)
    ensures memos == [] ==> sent == [] && cursor' == cursor
  {
    sent, cursor' := [], cursor;
    for i := 0 to |memos|
      invariant CycleResult(sent, cursor') == Cycle(memos[..i], cursor)
    {
      var memo := memos[i];
      if cursor'.None? || memo.createTime > cursor'.value {
        sent := sent + [Text(memo)];
        cursor' := Some(memo.createTime);
      }
      assert memos[..i + 1][..i] == memos[..i];
    }
    assert memos[..|memos|] == memos;
    CursorIsLatest(memos, cursor);
  }

  /** After a cycle the cursor is the maximum of the old cursor and every
      creation time in the list. */
  lemma {:induction false} CursorIsLatest(memos: seq<Memo>, cursor: Option<int>)
    ensures IsLatest(Cycle(memos, cursor).cursor, cursor, memos)
    decreases |memos|
  {
    if memos != [] {
      var n := |memos| - 1;
      var prefix := memos[..n];
      CursorIsLatest(prefix, cursor);
      var p := Cycle(prefix, cursor).cursor;
      var b := Cycle(memos, cursor).cursor;
      assert forall j :: 0 <= j < n ==> prefix[j] == memos[j];
      if IsNew(memos[n], p) {
        assert b == Some(memos[n].createTime);
      } else {
        assert b == p;
        if p != cursor {
          var j :| 0 <= j < n && prefix[j].createTime == p.value;
          assert memos[j].createTime == b.value;
        }
      }
    }
  }

  /** The test on memo i, against the running cursor, holds exactly when memo
      i is a new high. */
  lemma IsNewIffRelayable(memos: seq<Memo>, cursor: Option<int>, i: int)
    requires 0 <= i < |memos|
    ensures IsNew(memos[i], Cycle(memos[..i], cursor).cursor) <==> Relayable(memos, cursor, i)
  {
    var prefix := memos[..i];
    CursorIsLatest(prefix, cursor);
    assert forall j :: 0 <= j < i ==> prefix[j] == memos[j];
    var p := Cycle(prefix, cursor).cursor;
    if p.Some? && p != cursor {
      var j :| 0 <= j < i && prefix[j].createTime == p.value;
    }
  }

  /** A memo is relayed, and the cursor moved to its time, exactly when it is a
      new high; otherwise the cycle passes over it with nothing changed. */
  lemma RelayedExactlyWhenNew(memos: seq<Memo>, cursor: Option<int>, i: int)
    requires 0 <= i < |memos|
    ensures var before := Cycle(memos[..i], cursor);
      Cycle(memos[..i + 1], cursor) ==
        if Relayable(memos, cursor, i) then CycleResult(before.sent + [Text(memos[i])], Some(memos[i].createTime))
        else before
  {
    assert memos[..i + 1][..i] == memos[..i];
    IsNewIffRelayable(memos, cursor, i);
  }

  /** Relayable is decided by the memo and those before it, so a prefix agrees
      with the whole list on it. */
  lemma RelayablePrefix(memos: seq<Memo>, cursor: Option<int>, n: int)
    requires 0 <= n <= |memos|
    ensures forall i :: 0 <= i < n ==> (Relayable(memos[..n], cursor, i) <==> Relayable(memos, cursor, i))
  {
    forall i | 0 <= i < n ensures Relayable(memos[..n], cursor, i) <==> Relayable(memos, cursor, i) {
      assert forall j :: 0 <= j <= i ==> memos[..n][j] == memos[j];
    }
  }

  /** The relayed positions lie in the list, increase strictly, and are exactly
      the new highs. */
  lemma {:induction false} RelayedIndicesAreNewHighs(memos: seq<Memo>, cursor: Option<int>)
    ensures var ix := RelayedIndices(memos, cursor);
      (forall k :: 0 <= k < |ix| ==> 0 <= ix[k] < |memos|) &&
      (forall k, l :: 0 <= k < l < |ix| ==> ix[k] < ix[l]) &&
      (forall i :: 0 <= i < |memos| ==> (i in ix <==> Relayable(memos, cursor, i)))
    decreases |memos|
  {
    if memos != [] {
      var n := |memos| - 1;
      RelayedIndicesAreNewHighs(memos[..n], cursor);
      RelayablePrefix(memos, cursor, n);
    }
  }

  /** The k-th relayed text is the text of the memo at the k-th relayed position. */
  lemma {:induction false} SentFollowsIndices(memos: seq<Memo>, cursor: Option<int>)
    ensures var sent := Cycle(memos, cursor).sent; var ix := RelayedIndices(memos, cursor);
      |sent| == |ix| &&
      forall k :: 0 <= k < |ix| ==> 0 <= ix[k] < |memos| && sent[k] == Text(memos[ix[k]])
    decreases |memos|
  {
    if memos != [] {
      var n := |memos| - 1;
      var prefix := memos[..n];
      SentFollowsIndices(prefix, cursor);
      RelayedIndicesAreNewHighs(prefix, cursor);
      assert forall j :: 0 <= j < n ==> prefix[j] == memos[j];
      RelayedExactlyWhenNew(memos, cursor, n);
      assert memos[..n + 1] == memos;
    }
  }

  /** The relayed texts are, in order, the texts of exactly the memos that are
      new highs, taken in list order: an in-order subsequence of the list. */
  lemma SentAreRelayableInOrder(memos: seq<Memo>, cursor: Option<int>)
    ensures var sent := Cycle(memos, cursor).sent; var ix := RelayedIndices(memos, cursor);
      |sent| == |ix| &&
      (forall k :: 0 <= k < |ix| ==> 0 <= ix[k] < |memos| && sent[k] == Text(memos[ix[k]])) &&
      (forall k, l :: 0 <= k < l < |ix| ==> ix[k] < ix[l]) &&
      (forall i :: 0 <= i < |memos| ==> (i in ix <==> Relayable(memos, cursor, i)))
  {
    SentFollowsIndices(memos, cursor);
    RelayedIndicesAreNewHighs(memos, cursor);
  }

  /** The relayed memos come out in strictly increasing creation-time order,
      whatever the order of the list. */
  lemma {:induction false} RelayedInTimeOrder(memos: seq<Memo>, cursor: Option<int>)
    ensures var ix := RelayedIndices(memos, cursor);
      forall k, l :: 0 <= k < l < |ix| ==> memos[ix[k]].createTime < memos[ix[l]].createTime
  {
    var ix := RelayedIndices(memos, cursor);
    RelayedIndicesAreNewHighs(memos, cursor);
    forall k, l | 0 <= k < l < |ix| ensures memos[ix[k]].createTime < memos[ix[l]].createTime {
      assert Relayable(memos, cursor, ix[l]);
    }
  }

  /** From an unset cursor the first memo of a non-empty list is always
      relayed first, and the cursor ends up set. */
  lemma {:induction false} FirstMemoRelayed(memos: seq<Memo>)
    requires memos != []
    ensures var r := Cycle(memos, None);
      r.sent != [] && r.sent[0] == Text(memos[0]) && r.cursor.Some?
  {
    SentAreRelayableInOrder(memos, None);
    CursorIsLatest(memos, None);
    var ix := RelayedIndices(memos, None);
    assert Relayable(memos, None, 0);
    assert 0 in ix;
    var k :| 0 <= k < |ix| && ix[k] == 0;
    assert ix[0] == 0;
  }

  /** Within a cycle the cursor never moves back: after a longer prefix of the
      list it is at least where it was after a shorter one, and never behind
      the starting cursor. */
  lemma CursorNeverMovesBack(memos: seq<Memo>, cursor: Option<int>, i: int, j: int)
    requires 0 <= i <= j <= |memos|
    ensures NotBehind(Cycle(memos[..j], cursor).cursor, Cycle(memos[..i], cursor).cursor)
    ensures NotBehind(Cycle(memos[..j], cursor).cursor, cursor)
  {
    CursorIsLatest(memos[..i], cursor);
    CursorIsLatest(memos[..j], cursor);
    assert forall k :: 0 <= k < i ==> memos[..i][k] == memos[..j][k];
  }

  /** From a cursor no memo is later than, a cycle relays nothing and keeps the cursor. */
  lemma {:induction false} NothingLaterNothingSent(memos: seq<Memo>, b: int)
    requires forall j :: 0 <= j < |memos| ==> memos[j].createTime <= b
    ensures Cycle(memos, Some(b)) == CycleResult([], Some(b))
    decreases |memos|
  {
    if memos != [] {
      var n := |memos| - 1;
      assert forall j :: 0 <= j < n ==> memos[..n][j] == memos[j];
      NothingLaterNothingSent(memos[..n], b);
    }
  }

  /** Processing the same list again from the cursor a cycle reached relays
      nothing and leaves that cursor where it is. */
  lemma Idempotent(memos: seq<Memo>, cursor: Option<int>)
    ensures var r := Cycle(memos, cursor); Cycle(memos, r.cursor) == CycleResult([], r.cursor)
  {
    var r := Cycle(memos, cursor);
    CursorIsLatest(memos, cursor);
    if r.cursor.Some? {
      NothingLaterNothingSent(memos, r.cursor.value);
    }
  }

  /** The texts of every memo of the list, in list order. */
  function AllTexts(memos: seq<Memo>): seq<string> {
    seq(|memos|, i requires 0 <= i < |memos| => Text(memos[i]))
  }

  /** With strictly increasing creation times, all later than the cursor, every
      memo is relayed in list order and the cursor ends at the last time. */
  lemma {:induction false} IncreasingAllRelayed(memos: seq<Memo>, cursor: Option<int>)
    requires forall i, j :: 0 <= i < j < |memos| ==> memos[i].createTime < memos[j].createTime
    requires forall i :: 0 <= i < |memos| ==> IsNew(memos[i], cursor)
    ensures Cycle(memos, cursor).sent == AllTexts(memos)
    ensures Cycle(memos, cursor).cursor == if memos == [] then cursor else Some(memos[|memos| - 1].createTime)
    decreases |memos|
  {
    if memos != [] {
      var n := |memos| - 1;
      var prefix := memos[..n];
      assert forall j :: 0 <= j < n ==> prefix[j] == memos[j];
      IncreasingAllRelayed(prefix, cursor);
      assert AllTexts(memos) == AllTexts(prefix) + [Text(memos[n])];
    }
  }

  /** A cycle over two lists joined is the cycle over the first followed by the
      cycle over the second from the cursor the first reached. */
  lemma {:induction false} CycleOfConcat(a: seq<Memo>, b: seq<Memo>, cursor: Option<int>)
    ensures var r1 := Cycle(a, cursor); var r2 := Cycle(b, r1.cursor);
      Cycle(a + b, cursor) == CycleResult(r1.sent + r2.sent, r2.cursor)
    decreases |b|
  {
    if b == [] {
      assert a + b == a;
    } else {
      var n := |b| - 1;
      CycleOfConcat(a, b[..n], cursor);
      assert (a + b)[..|a + b| - 1] == a + b[..n];
    }
  }

  /** From an unset cursor, memos A at 1 and B at 2: A then B relayed, cursor 2. */
  lemma ScenarioFromUnset()
    ensures Cycle([Memo(Some("A"), 1), Memo(Some("B"), 2)], None) == CycleResult(["A", "B"], Some(2))
  {
    var ms := [Memo(Some("A"), 1), Memo(Some("B"), 2)];
    assert ms[..1] == [ms[0]] && [ms[0]][..0] == [];
  }

  /** From cursor 2, memos A at 1, B at 2, C at 3: only C relayed, cursor 3. */
  lemma ScenarioFromCursor()
    ensures Cycle([Memo(Some("A"), 1), Memo(Some("B"), 2), Memo(Some("C"), 3)], Some(2)) == CycleResult(["C"], Some(3))
  {
    var ms := [Memo(Some("A"), 1), Memo(Some("B"), 2), Memo(Some("C"), 3)];
    assert ms[..2] == [ms[0], ms[1]] && [ms[0], ms[1]][..1] == [ms[0]] && [ms[0]][..0] == [];
    assert Cycle([ms[0]], Some(2)) == CycleResult([], Some(2));
    assert Cycle(ms[..2], Some(2)) == CycleResult([], Some(2));
  }

  /** A memo without content is relayed as the placeholder text. */
  lemma MissingContentSendsPlaceholder(t: int)
    ensures Cycle([Memo(None, t)], None) == CycleResult(["No content"], Some(t))
  {
    assert [Memo(None, t)][..0] == [];
  }

  /** A list delivered newest first relays at most its first memo: every later
      one is older than the memo before it. */
  lemma {:induction false} NewestFirstRelaysOnlyHead(memos: seq<Memo>, cursor: Option<int>)
    requires forall i, j :: 0 <= i < j < |memos| ==> memos[i].createTime > memos[j].createTime
    ensures Cycle(memos, cursor).sent == if memos != [] && IsNew(memos[0], cursor) then [Text(memos[0])] else []
    ensures Cycle(memos, cursor).cursor == if memos != [] && IsNew(memos[0], cursor) then Some(memos[0].createTime) else cursor
    decreases |memos|
  {
    if memos != [] {
      var n := |memos| - 1;
      var prefix := memos[..n];
      assert forall j :: 0 <= j < n ==> prefix[j] == memos[j];
      NewestFirstRelaysOnlyHead(prefix, cursor);
    }
  }
}
