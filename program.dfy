/** The program as a whole (main.py:7-27 and main(), main.py:59-74): check the
    configuration, announce the start, then poll cycle after cycle. The endless
    loop and its one-minute sleep are modelled as a finite sequence of fetch
    outcomes, one per cycle; None is a fetch whose request failed. */
module Program {
  import opened Options
  import opened Fetch
  import opened Relay
  import opened Settings
  import opened Webhook

  /** The text announced once before the first poll. */
  const StartupText: string := "Memo2Discord started!"

  /** The memos one cycle works on, given the outcome of its fetch. */
  function CycleMemos(fetch: Option<Body>): seq<Memo> {
    MemoList(Fetched(fetch))
  }

  /** Every memo seen over the run, the cycles' lists joined in order. */
  function AllMemos(fetches: seq<Option<Body>>): seq<Memo>
    decreases |fetches|
  {
    if fetches == [] then []
    else AllMemos(fetches[..|fetches| - 1]) + CycleMemos(fetches[|fetches| - 1])
  }

  /** Texts relayed and cursor reached after the announcement and the given cycles. */
  function Trace(fetches: seq<Option<Body>>): (r: CycleResult)
    ensures r.sent != [] && r.sent[0] == StartupText
    decreases |fetches|
  {
    if fetches == [] then CycleResult([StartupText], None)
    else
      var before := Trace(fetches[..|fetches| - 1]);
      var c := Cycle(CycleMemos(fetches[|fetches| - 1]), before.cursor);
      CycleResult(before.sent + c.sent, c.cursor)
  }

  /** After the announcement, a run relays exactly what one cycle over all the
      memos it ever fetched would relay, starting from an unset cursor. */
  lemma {:induction false} TraceIsOneCycle(fetches: seq<Option<Body>>)
    ensures var r := Cycle(AllMemos(fetches), None);
      Trace(fetches) == CycleResult([StartupText] + r.sent, r.cursor)
    decreases |fetches|
  {
    if fetches != [] {
      var n := |fetches| - 1;
      TraceIsOneCycle(fetches[..n]);
      CycleOfConcat(AllMemos(fetches[..n]), CycleMemos(fetches[n]), None);
    }
  }

  /** A cycle whose fetch failed relays nothing and leaves the cursor alone. */
  lemma FailedFetchChangesNothing(fetches: seq<Option<Body>>)
    ensures Trace(fetches + [None]) == Trace(fetches)
  {
    assert (fetches + [None])[..|fetches|] == fetches;
  }

  /** Fetching the same list twice in a row: the second cycle relays nothing. */
  lemma RefetchRelaysNothing(fetches: seq<Option<Body>>, f: Option<Body>)
    ensures Trace(fetches + [f, f]) == Trace(fetches + [f])
  {
    assert (fetches + [f, f])[..|fetches| + 1] == fetches + [f];
    assert (fetches + [f])[..|fetches|] == fetches;
    Idempotent(CycleMemos(f), Trace(fetches).cursor);
  }

  /** After any run the cursor is the latest creation time ever fetched. */
  lemma CursorIsLatestEverFetched(fetches: seq<Option<Body>>)
    ensures IsLatest(Trace(fetches).cursor, None, AllMemos(fetches))
  {
    TraceIsOneCycle(fetches);
    CursorIsLatest(AllMemos(fetches), None);
  }

  /** The polling loop, for as many cycles as there are fetch outcomes. */
  method Run(fetches: seq<Option<Body>>) returns (relayed: seq<string>, cursor: Option<int>)
    ensures CycleResult(relayed, cursor) == Trace(fetches)
  {
    relayed, cursor := [StartupText], None;
    for i := 0 to |fetches|
      invariant CycleResult(relayed, cursor) == Trace(fetches[..i])
    {
      var memos := CycleMemos(fetches[i]);
      var sent;
      sent, cursor := ProcessCycle(memos, cursor);
      relayed := relayed + sent;
      assert fetches[..i + 1][..i] == fetches[..i];
    }
    assert fetches[..|fetches|] == fetches;
  }

  /** The whole program: exit with code 1 before any message when the file is
      missing, unreadable or lacks a URL; otherwise post the announcement and
      every relayed text, each as a webhook message. None as exit code means
      the program is still polling. */
  method Launch(file: Option<map<string, string>>, fetches: seq<Option<Body>>)
    returns (exitCode: Option<int>, posts: seq<Payload>)
    ensures exitCode.Some? <==> file.None? || !HasRequired(Load(file.value))
    ensures exitCode.Some? ==> exitCode == Some(1) && posts == []
    ensures exitCode.None? ==> posts == Payloads(Load(file.value).avatarUrl, Trace(fetches).sent)
  {
    if file.None? {
      return Some(1), [];
    }
    var cfg := Load(file.value);
    if !HasRequired(cfg) {
      return Some(1), [];
    }
    var relayed, _ := Run(fetches);
    return None, Payloads(cfg.avatarUrl, relayed);
  }
}
