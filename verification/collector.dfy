/** `poll_logs` and `main`: one poll of the log endpoint, the cycle that
    follows it with a token refresh, and a run of cycles after start-up. */
module Collector {
  import opened Common
  import opened Json
  import opened IndexCodec
  import opened Normalizer
  import opened Dedup
  import opened Session

  /** What the GET on the log endpoint gives back: a status and the list under
      `payload.results` (None when the body lacks it), or an exception from
      the HTTP library. */
  datatype LogResponse = LogResponse(status: int, results: Option<seq<Record>>) | LogsUnreachable

  /** The effect of one `poll_logs()` call: the lines handed to the logger, the
      value written to the cursor file if any, and the exception raised if any. */
  datatype PollOutcome = PollOutcome(sent: seq<string>, write: Option<int>, failure: Option<Failure>)

  /** `log_entry["index"]` as the comparison sees it: an integer, or the
      KeyError / TypeError the comparison with an int raises. */
  function IndexOf(r: Record): (x: Result<int>)
    ensures x.Ok? <==> Lookup(r, "index").Some? && Lookup(r, "index").value.Int?
    ensures x.Ok? ==> Lookup(r, "index") == Some(Int(x.value))
    ensures Lookup(r, "index").None? ==> x == Err(MissingKey("index"))
  {
    match Lookup(r, "index")
    case None => Err(MissingKey("index"))
    case Some(Int(i)) => Ok(i)
    case Some(_) => Err(IndexNotComparable)
  }

  predicate AllIndexed(page: seq<Record>) {
    forall i :: 0 <= i < |page| ==> IndexOf(page[i]).Ok?
  }

  /** How many records the loop gets through before one without an integer index. */
  function IndexedPrefix(page: seq<Record>): (k: nat)
    ensures k <= |page| && AllIndexed(page[..k])
    ensures k < |page| ==> IndexOf(page[k]).Err?
    decreases |page|
  {
    if |page| == 0 then 0
    else
      var n := |page| - 1;
      var k := IndexedPrefix(page[..n]);
      assert page[..n][..k] == page[..k];
      if k < n then k
      else if IndexOf(page[n]).Ok? then
        assert page[..n + 1] == page;
        |page|
      else n
  }

  function Entries(page: seq<Record>): (es: seq<Entry>)
    requires AllIndexed(page)
    ensures |es| == |page|
  {
    seq(|page|, i requires 0 <= i < |page| && AllIndexed(page) => Entry(IndexOf(page[i]).value, page[i]))
  }

  /** The logged line of every entry, in order. */
  function Lines(es: seq<Entry>, dumps: Value -> string): (ls: seq<string>)
    ensures |ls| == |es|
  {
    seq(|es|, i requires 0 <= i < |es| => Normalize(es[i].record, dumps))
  }

  /** `poll_logs()` given the cursor file and the log reply. */
  function Poll(file: FileState, resp: LogResponse, dumps: Value -> string): (o: PollOutcome)
    ensures resp.LogResponse? && resp.status != 200 ==> o == PollOutcome([], None, None)
    ensures o.failure.Some? ==> o.write.None?
    ensures o.write.Some? ==> o.write.value > ReadLastIndex(file)
    ensures resp.LogResponse? && resp.status == 200 && resp.results.Some? ==>
      |o.sent| <= |resp.results.value|
  {
    match resp
    case LogsUnreachable => PollOutcome([], None, Some(ConnectionFailed))
    case LogResponse(status, results) =>
      if status != 200 then PollOutcome([], None, None)
      else
        match results
        case None => PollOutcome([], None, Some(MissingKey("results")))
        case Some(page) => PollPage(ReadLastIndex(file), page, dumps)
  }

  /** The part of `poll_logs()` after a 200 reply, with `w` the index read at
      the start: forward, advance, and write if the index moved, unless a
      record without an integer index raises first. */
  function PollPage(w: int, page: seq<Record>, dumps: Value -> string): (o: PollOutcome)
    ensures o.failure.Some? ==> o.write.None?
    ensures o.write.Some? ==> o.write.value > w
    ensures |o.sent| <= |page|
  {
    var k := IndexedPrefix(page);
    var es := Entries(page[..k]);
    var sent := Lines(Select(es, w), dumps);
    if k < |page| then PollOutcome(sent, None, Some(IndexOf(page[k]).failure))
    else
      var nw := Advance(es, w);
      PollOutcome(sent, if nw != w then Some(nw) else None, None)
  }

  /** The cursor file after a poll. */
  function Persist(file: FileState, write: Option<int>): (f: FileState)
    ensures write.None? ==> f == file
    ensures ReadLastIndex(f) == (if write.Some? then write.value else ReadLastIndex(file))
  {
    match write
    case None => file
    case Some(n) => WriteLastIndex(n)
  }

  /** `poll_logs()` written as the code is: read the cursor, check the reply,
      then one pass over the page that forwards, advances and may raise on the way. */
  method PollLogs(file: FileState, resp: LogResponse, dumps: Value -> string) returns (o: PollOutcome)
    ensures o == Poll(file, resp, dumps)
  {
    var lastIndex := ReadLastIndex(file);
    if resp.LogsUnreachable? {
      return PollOutcome([], None, Some(ConnectionFailed));
    }
    if resp.status != 200 {
      return PollOutcome([], None, None);
    }
    if resp.results.None? {
      return PollOutcome([], None, Some(MissingKey("results")));
    }
    o := ForwardPage(resp.results.value, lastIndex, dumps);
  }

  /** What the loop has done after the first `i` records of `data`: all of
      them had an integer index, the records above `lastIndex` among them
      were forwarded in order, and `newLastIndex` is their running maximum. */
  predicate Scanned(data: seq<Record>, i: nat, lastIndex: int, dumps: Value -> string,
                    sent: seq<string>, newLastIndex: int)
  {
    && i <= |data|
    && AllIndexed(data[..i])
    && sent == Lines(Select(Entries(data[..i]), lastIndex), dumps)
    && newLastIndex == Advance(Entries(data[..i]), lastIndex)
  }

  /** The `for log_entry in data` loop and the write after it: forwards each
      record above `lastIndex`, keeps the running maximum, stops at the first
      record whose index cannot be compared, and writes the maximum if it moved. */
  method ForwardPage(data: seq<Record>, lastIndex: int, dumps: Value -> string) returns (o: PollOutcome)
    ensures o == PollPage(lastIndex, data, dumps)
  {
    var sent: seq<string> := [];
    var newLastIndex := lastIndex;
    var i := 0;
    assert data[..0] == [];
    while i < |data|
      invariant Scanned(data, i, lastIndex, dumps, sent, newLastIndex)
    {
      var index := IndexOf(data[i]);
      if index.Err? {
        PollStopsAt(lastIndex, data, dumps, i);
        return PollOutcome(sent, None, Some(index.failure));
      }
      ScanStep(data, i, lastIndex, dumps, sent, newLastIndex);
      if index.value > lastIndex {
        sent := sent + [Normalize(data[i], dumps)];
        newLastIndex := Max(newLastIndex, index.value);
      }
      i := i + 1;
    }
    assert data[..i] == data;
    PollCompletes(lastIndex, data, dumps);
    if newLastIndex != lastIndex {
      return PollOutcome(sent, Some(newLastIndex), None);
    }
    return PollOutcome(sent, None, None);
  }

  /** One turn of the loop keeps `Scanned`. */
  lemma ScanStep(data: seq<Record>, i: nat, lastIndex: int, dumps: Value -> string,
                 sent: seq<string>, newLastIndex: int)
    requires i < |data| && IndexOf(data[i]).Ok?
    requires Scanned(data, i, lastIndex, dumps, sent, newLastIndex)
    ensures var x := IndexOf(data[i]).value;
      if x > lastIndex then
        Scanned(data, i + 1, lastIndex, dumps, sent + [Normalize(data[i], dumps)], Max(newLastIndex, x))
      else Scanned(data, i + 1, lastIndex, dumps, sent, newLastIndex)
  {
    PollStep(data, i, lastIndex, dumps);
  }

  /** The first record without an integer index, or the end of the page, is
      where the indexed prefix stops. */
  lemma IndexedPrefixAt(page: seq<Record>, i: nat)
    requires i <= |page| && AllIndexed(page[..i])
    requires i < |page| ==> IndexOf(page[i]).Err?
    ensures IndexedPrefix(page) == i
  {
    var k := IndexedPrefix(page);
    forall j | 0 <= j < i
      ensures IndexOf(page[j]).Ok?
    {
      assert page[..i][j] == page[j];
    }
    forall j | 0 <= j < k
      ensures IndexOf(page[j]).Ok?
    {
      assert page[..k][j] == page[j];
    }
  }

  /** One more indexed record extends the forwarded lines and the running
      maximum exactly as one turn of the loop does. */
  lemma PollStep(page: seq<Record>, i: nat, w: int, dumps: Value -> string)
    requires i < |page| && AllIndexed(page[..i]) && IndexOf(page[i]).Ok?
    ensures AllIndexed(page[..i + 1])
    ensures var x := IndexOf(page[i]).value;
      Lines(Select(Entries(page[..i + 1]), w), dumps) ==
        Lines(Select(Entries(page[..i]), w), dumps) + (if x > w then [Normalize(page[i], dumps)] else [])
    ensures var x := IndexOf(page[i]).value;
      Advance(Entries(page[..i + 1]), w) ==
        if x > w then Max(Advance(Entries(page[..i]), w), x) else Advance(Entries(page[..i]), w)
  {
    var e := Entry(IndexOf(page[i]).value, page[i]);
    EntriesSnoc(page, i);
    var es := Entries(page[..i]);
    var add := if e.index > w then [e] else [];
    SelectSnoc(es, e, w);
    assert Select(Entries(page[..i + 1]), w) == Select(es, w) + add;
    LinesAppend(Select(es, w), add, dumps);
    if e.index > w {
      assert Lines(add, dumps) == [Normalize(page[i], dumps)];
    } else {
      assert Lines(add, dumps) == [];
    }
  }

  /** Entries of a prefix grow by one entry per indexed record. */
  lemma EntriesSnoc(page: seq<Record>, i: nat)
    requires i < |page| && AllIndexed(page[..i]) && IndexOf(page[i]).Ok?
    ensures AllIndexed(page[..i + 1])
    ensures Entries(page[..i + 1]) == Entries(page[..i]) + [Entry(IndexOf(page[i]).value, page[i])]
  {
    assert forall j :: 0 <= j < i ==> page[..i + 1][j] == page[..i][j];
  }

  /** One more entry at the end of the page: the filter and the running
      maximum take one more step. */
  lemma SelectSnoc(es: seq<Entry>, e: Entry, w: int)
    ensures Select(es + [e], w) == Select(es, w) + (if e.index > w then [e] else [])
    ensures Advance(es + [e], w) == if e.index > w then Max(Advance(es, w), e.index) else Advance(es, w)
  {
    assert (es + [e])[..|es|] == es;
  }

  /** A page whose record `i` is the first without an integer index. */
  lemma PollStopsAt(w: int, page: seq<Record>, dumps: Value -> string, i: nat)
    requires i < |page| && AllIndexed(page[..i])
    requires IndexOf(page[i]).Err?
    ensures PollPage(w, page, dumps) ==
      PollOutcome(Lines(Select(Entries(page[..i]), w), dumps), None, Some(IndexOf(page[i]).failure))
  {
    IndexedPrefixAt(page, i);
  }

  /** A page every record of which has an integer index. */
  lemma PollCompletes(w: int, page: seq<Record>, dumps: Value -> string)
    requires AllIndexed(page)
    ensures var nw := Advance(Entries(page), w);
      PollPage(w, page, dumps) ==
        PollOutcome(Lines(Select(Entries(page), w), dumps), if nw != w then Some(nw) else None, None)
  {
    assert page[..|page|] == page;
    IndexedPrefixAt(page, |page|);
  }

  /** Lines of concatenated entries are the concatenated lines. */
  lemma LinesAppend(a: seq<Entry>, b: seq<Entry>, dumps: Value -> string)
    ensures Lines(a + b, dumps) == Lines(a, dumps) + Lines(b, dumps)
  {
  }

  /** The forwarded lines are those of exactly the records whose index is
      above the watermark read at the start of the poll, each once and in page
      order, among the records the loop got through before the first one
      without an integer index (all of them, on a well-formed page). `pos`
      gives their positions. */
  lemma PollForwardsExactlyNew(file: FileState, resp: LogResponse, dumps: Value -> string)
    returns (pos: seq<nat>)
    requires resp.LogResponse? && resp.status == 200 && resp.results.Some?
    ensures var done := resp.results.value[..IndexedPrefix(resp.results.value)];
      var sent := Poll(file, resp, dumps).sent;
      && |pos| == |sent|
      && (forall j :: 0 <= j < |pos| ==> pos[j] < |done| && sent[j] == Normalize(done[pos[j]], dumps))
      && (forall j, l :: 0 <= j < l < |pos| ==> pos[j] < pos[l])
      && (forall i :: 0 <= i < |done| ==> (IndexOf(done[i]).value > ReadLastIndex(file) <==> i in pos))
  {
    var page := resp.results.value;
    var done := page[..IndexedPrefix(page)];
    var w := ReadLastIndex(file);
    assert Poll(file, resp, dumps).sent == Lines(Select(Entries(done), w), dumps);
    pos := LinesEnumerate(done, w, dumps);
  }

  /** The lines of the selected entries of an indexed page, by page position. */
  lemma LinesEnumerate(page: seq<Record>, w: int, dumps: Value -> string) returns (pos: seq<nat>)
    requires AllIndexed(page)
    ensures var sent := Lines(Select(Entries(page), w), dumps);
      && |pos| == |sent|
      && (forall j :: 0 <= j < |pos| ==> pos[j] < |page| && sent[j] == Normalize(page[pos[j]], dumps))
      && (forall j, l :: 0 <= j < l < |pos| ==> pos[j] < pos[l])
      && (forall i :: 0 <= i < |page| ==> (IndexOf(page[i]).value > w <==> i in pos))
  {
    var es := Entries(page);
    pos := SelectPositions(es, w);
    var out := Select(es, w);
    forall j | 0 <= j < |pos|
      ensures pos[j] < |page| && Lines(out, dumps)[j] == Normalize(page[pos[j]], dumps)
    {
      assert out[j] == es[pos[j]];
    }
    assert forall i :: 0 <= i < |page| ==> es[i].index == IndexOf(page[i]).value;
  }

  /** The write rule of `poll_logs` on an indexed page read against `w`:
      something is written exactly when some record is above `w`, and what is
      written is the largest index on the page. */
  predicate WritesLargestIfAbove(page: seq<Record>, w: int, write: Option<int>)
    requires AllIndexed(page)
  {
    && (write.Some? <==> exists i :: 0 <= i < |page| && IndexOf(page[i]).value > w)
    && (write.Some? ==>
          (forall i :: 0 <= i < |page| ==> IndexOf(page[i]).value <= write.value)
          && exists i :: 0 <= i < |page| && IndexOf(page[i]).value == write.value)
  }

  /** On a well-formed page the poll raises nothing, writes the cursor file
      exactly when some record is above the watermark, and then writes the
      largest index on the page. */
  lemma PollWatermark(file: FileState, resp: LogResponse, dumps: Value -> string)
    requires resp.LogResponse? && resp.status == 200 && resp.results.Some?
    requires AllIndexed(resp.results.value)
    ensures var o := Poll(file, resp, dumps);
      o.failure.None? && WritesLargestIfAbove(resp.results.value, ReadLastIndex(file), o.write)
  {
    var page := resp.results.value;
    var w := ReadLastIndex(file);
    assert Poll(file, resp, dumps) == PollPage(w, page, dumps);
    PageWatermark(w, page, dumps);
  }

  /** `PollWatermark` for the part after a 200 reply. */
  lemma PageWatermark(w: int, page: seq<Record>, dumps: Value -> string)
    requires AllIndexed(page)
    ensures var o := PollPage(w, page, dumps);
      o.failure.None? && WritesLargestIfAbove(page, w, o.write)
  {
    PollCompletes(w, page, dumps);
    var nw := Advance(Entries(page), w);
    AdvanceOnPage(page, w);
    assert PollPage(w, page, dumps).write == if nw != w then Some(nw) else None;
  }

  /** The running maximum over an indexed page follows the write rule. */
  lemma AdvanceOnPage(page: seq<Record>, w: int)
    requires AllIndexed(page)
    ensures var nw := Advance(Entries(page), w);
      WritesLargestIfAbove(page, w, if nw != w then Some(nw) else None)
  {
    var es := Entries(page);
    var nw := Advance(es, w);
    forall i | 0 <= i < |page|
      ensures es[i].index == IndexOf(page[i]).value && es[i].index <= nw
    {
    }
    if nw != w {
      var i :| 0 <= i < |es| && es[i].index > w && es[i].index == nw;
      assert IndexOf(page[i]).value == nw;
    }
  }

  /** Polling the same well-formed page again, after the first poll's write,
      forwards nothing: no record is delivered twice by consecutive polls. */
  lemma PollReplayForwardsNothing(file: FileState, resp: LogResponse, dumps: Value -> string)
    requires resp.LogResponse? && resp.status == 200 && resp.results.Some?
    requires AllIndexed(resp.results.value)
    ensures var o := Poll(file, resp, dumps);
      Poll(Persist(file, o.write), resp, dumps) == PollOutcome([], None, None)
  {
    var page := resp.results.value;
    var w := ReadLastIndex(file);
    var es := Entries(page);
    var o := Poll(file, resp, dumps);
    PollCompletes(w, page, dumps);
    var nw := Advance(es, w);
    var file' := Persist(file, o.write);
    assert ReadLastIndex(file') == nw;
    PollCompletes(nw, page, dumps);
    ReplayForwardsNothing(es, w);
    assert Advance(es, nw) == nw;
  }

  /** A poll that raised wrote nothing, so the next poll reads the same
      watermark and, given the same page, forwards the same lines again:
      delivery is at least once. */
  lemma PollRaiseResends(file: FileState, resp: LogResponse, dumps: Value -> string)
    ensures var o := Poll(file, resp, dumps);
      o.failure.Some? ==>
        Persist(file, o.write) == file && Poll(Persist(file, o.write), resp, dumps).sent == o.sent
  {
  }

  /** What the loop in `main` holds between cycles: the two tokens, the
      cursor file and every line handed to the logger so far. */
  datatype State = State(tokens: Tokens, file: FileState, sent: seq<string>)

  /** The remote endpoints during one cycle: the log endpoint, given the
      access token the request carries, and the refresh endpoint, given the
      refresh token sent. */
  datatype Env = Env(fetch: Option<Value> -> LogResponse, exchange: Value -> TokenReply)

  /** The state reached and the exception that ended the process, if any. */
  datatype Outcome = Outcome(state: State, failure: Option<Failure>)

  /** One turn of `main`'s loop: poll with the current access token, then
      (after the sleep) refresh. An exception from either ends the process. */
  function Cycle(st: State, env: Env, dumps: Value -> string): (o: Outcome)
    ensures ReadLastIndex(o.state.file) >= ReadLastIndex(st.file)
    ensures |o.state.sent| >= |st.sent| && o.state.sent[..|st.sent|] == st.sent
    ensures o.failure.Some? ==> o.state.tokens == st.tokens
    ensures var p := Poll(st.file, env.fetch(st.tokens.access), dumps);
      o.state.sent == st.sent + p.sent && o.state.file == Persist(st.file, p.write)
    ensures var p := Poll(st.file, env.fetch(st.tokens.access), dumps);
      p.failure.Some? ==> o.failure == p.failure
    ensures var p := Poll(st.file, env.fetch(st.tokens.access), dumps);
      var r := Refresh(st.tokens, env.exchange);
      p.failure.None? ==> o.failure == r.failure && o.state.tokens == r.tokens
  {
    var p := Poll(st.file, env.fetch(st.tokens.access), dumps);
    var st1 := State(st.tokens, Persist(st.file, p.write), st.sent + p.sent);
    assert st1.sent[..|st.sent|] == st.sent;
    if p.failure.Some? then Outcome(st1, p.failure)
    else
      var r := Refresh(st.tokens, env.exchange);
      Outcome(st1.(tokens := r.tokens), r.failure)
  }

  /** Cycles run one after another until one raises. */
  function Loop(st: State, envs: seq<Env>, dumps: Value -> string): Outcome
    decreases |envs|
  {
    if |envs| == 0 then Outcome(st, None)
    else
      var o := Cycle(st, envs[0], dumps);
      if o.failure.Some? then o else Loop(o.state, envs[1..], dumps)
  }

  /** Carry on from an outcome with more cycles, unless it already ended the process. */
  function Resume(o: Outcome, envs: seq<Env>, dumps: Value -> string): Outcome {
    if o.failure.Some? then o else Loop(o.state, envs, dumps)
  }

  /** `main()`: authenticate, and on success run the loop; a failed
      authentication ends the process before the first poll. */
  function Main(file: FileState, auth: TokenReply, envs: seq<Env>, dumps: Value -> string): (o: Outcome)
    ensures !Grants(auth) ==> o.failure.Some? && o.state == State(Initial, file, [])
    ensures ReadLastIndex(o.state.file) >= ReadLastIndex(file)
  {
    var a := Authenticate(Initial, auth);
    if a.failure.Some? then Outcome(State(Initial, file, []), a.failure)
    else
      LoopMonotone(State(a.tokens, file, []), envs, dumps);
      Loop(State(a.tokens, file, []), envs, dumps)
  }

  /** Over any run of cycles the watermark never decreases and lines once
      handed to the logger stay handed. */
  lemma {:induction false} LoopMonotone(st: State, envs: seq<Env>, dumps: Value -> string)
    ensures var o := Loop(st, envs, dumps);
      ReadLastIndex(o.state.file) >= ReadLastIndex(st.file)
      && |o.state.sent| >= |st.sent| && o.state.sent[..|st.sent|] == st.sent
    decreases |envs|
  {
    if |envs| > 0 {
      var o := Cycle(st, envs[0], dumps);
      if o.failure.None? {
        TakeCons(envs, |envs| - 1);
        assert envs[..|envs|] == envs;
        LoopFirst(st, envs[0], envs[1..], dumps);
        LoopMonotone(o.state, envs[1..], dumps);
        PrefixOfPrefix(st.sent, o.state.sent, Loop(o.state, envs[1..], dumps).state.sent);
      }
    }
  }

  /** A prefix of a prefix is a prefix. */
  lemma PrefixOfPrefix<T>(a: seq<T>, b: seq<T>, c: seq<T>)
    requires |a| <= |b| && b[..|a|] == a
    requires |b| <= |c| && c[..|b|] == b
    ensures |a| <= |c| && c[..|a|] == a
  {
    assert c[..|a|] == c[..|b|][..|a|];
  }

  /** Running two batches of cycles is running the first and resuming with the second. */
  lemma {:induction false} LoopSplit(st: State, a: seq<Env>, b: seq<Env>, dumps: Value -> string)
    ensures Loop(st, a + b, dumps) == Resume(Loop(st, a, dumps), b, dumps)
    decreases |a|
  {
    if |a| == 0 {
      assert a + b == b;
    } else {
      assert (a + b)[0] == a[0];
      assert (a + b)[1..] == a[1..] + b;
      var o := Cycle(st, a[0], dumps);
      if o.failure.None? {
        LoopSplit(o.state, a[1..], b, dumps);
      }
    }
  }

  /** The persisted watermark is non-decreasing along a run: after the first
      `i` cycles it is at most what it is after the first `j >= i`. */
  lemma WatermarkNonDecreasing(st: State, envs: seq<Env>, i: nat, j: nat, dumps: Value -> string)
    requires i <= j <= |envs|
    ensures ReadLastIndex(Loop(st, envs[..i], dumps).state.file) <= ReadLastIndex(Loop(st, envs[..j], dumps).state.file)
  {
    TakeSplit(envs, i, j);
    LoopSplit(st, envs[..i], envs[i..j], dumps);
    var o := Loop(st, envs[..i], dumps);
    if o.failure.None? {
      LoopMonotone(o.state, envs[i..j], dumps);
    }
  }

  /** The two tokens held after any run of cycles belong together: either no
      refresh has succeeded and the starting pair is still held, or both came
      from the reply of one cycle's refresh endpoint to the refresh token
      actually held when that cycle began. */
  lemma {:induction false} LoopTokensPaired(st: State, envs: seq<Env>, dumps: Value -> string)
    ensures var o := Loop(st, envs, dumps);
      o.state.tokens == st.tokens
      || exists k :: 0 <= k < |envs| &&
           var reply := envs[k].exchange(Sent(Loop(st, envs[..k], dumps).state.tokens));
           Grants(reply) && IssuedBy(o.state.tokens, reply)
    decreases |envs|
  {
    if |envs| > 0 {
      var o := Cycle(st, envs[0], dumps);
      if o.failure.None? {
        LoopNothing(st, envs, dumps);
        CycleRefreshes(st, envs[0], dumps);
        LoopTokensPaired(o.state, envs[1..], dumps);
        var r := Loop(o.state, envs[1..], dumps);
        if r.state.tokens != o.state.tokens {
          var k :| 0 <= k < |envs[1..]| &&
            var reply := envs[1..][k].exchange(Sent(Loop(o.state, envs[1..][..k], dumps).state.tokens));
            Grants(reply) && IssuedBy(r.state.tokens, reply);
          TakeCons(envs, k);
          LoopFirst(st, envs[0], envs[1..][..k], dumps);
          assert envs[1..][k] == envs[k + 1];
        }
      }
    }
  }

  /** A run whose first cycle does not raise carries on from that cycle's state. */
  lemma LoopFirst(st: State, e: Env, rest: seq<Env>, dumps: Value -> string)
    ensures Cycle(st, e, dumps).failure.None? ==>
      Loop(st, [e] + rest, dumps) == Loop(Cycle(st, e, dumps).state, rest, dumps)
  {
    assert ([e] + rest)[0] == e;
    assert ([e] + rest)[1..] == rest;
  }

  /** The first `k + 1` elements are the head followed by the first `k` of the tail. */
  lemma TakeCons<T>(s: seq<T>, k: nat)
    requires k < |s|
    ensures s[..k + 1] == [s[0]] + s[1..][..k]
  {
  }

  /** The first `j` elements are the first `i` followed by those from `i` to `j`. */
  lemma TakeSplit<T>(s: seq<T>, i: nat, j: nat)
    requires i <= j <= |s|
    ensures s[..j] == s[..i] + s[i..j]
  {
  }

  /** A cycle that raises nothing holds the pair its refresh reply granted. */
  lemma CycleRefreshes(st: State, e: Env, dumps: Value -> string)
    ensures var reply := e.exchange(Sent(st.tokens));
      Cycle(st, e, dumps).failure.None? ==>
        Grants(reply) && IssuedBy(Cycle(st, e, dumps).state.tokens, reply)
  {
  }

  /** Before the first cycle nothing has changed. */
  lemma LoopNothing(st: State, envs: seq<Env>, dumps: Value -> string)
    ensures Loop(st, envs[..0], dumps) == Outcome(st, None)
  {
    assert envs[..0] == [];
  }
}
