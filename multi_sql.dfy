/** `executeAll` of `snowflake-multisql.ts`: a script is cut into chunks, each chunk has
    its named placeholders turned into positional binds and is sent to the driver on its
    own, one after the other, and one record is collected per chunk. */
module MultiSql {
  import opened Wrappers
  import opened JsStrings
  import opened TagBinds
  import Chunks

  /** A statement as handed to the driver's `execute`: text and positional binds. */
  datatype Statement<V> = Statement(sqlText: string, binds: seq<V>)

  /** `IMultiSqlResult`: what is known of one chunk. A preview leaves the last three out. */
  datatype Record<V, D> = Record(chunkText: string, chunkOrder: nat, chunksTotal: nat,
                                 binds: seq<V>, duration: Option<int>,
                                 totalDuration: Option<int>, data: Option<D>)

  /** One call of `executeAll`: its chunks, `tagsToBinds` with the call's tags as
      `resolve`, the options, and the driver it talks to. The driver answers the `n`-th
      statement sent on the connection with `reply`, and `elapsed(n)` is the time the
      clock shows passing during that statement. `before` is the number of statements the
      connection had sent before the call. */
  datatype Call<!V, D> = Call(chunks: seq<string>,
                             resolve: string -> Result<Bound<V>, string>,
                             preview: bool, includeResults: bool,
                             reply: (Statement<V>, nat) -> Result<D, string>,
                             elapsed: nat -> int, before: nat)

  /** The state of the loop over the chunks: the records so far, the running total of
      the durations, the statements sent and the error that ended the call, if any. */
  datatype Progress<V, D> = Progress(results: seq<Record<V, D>>, totalDuration: int,
                                     sent: seq<Statement<V>>, failure: Option<string>)

  /** The loop body for chunk `i`. Blank chunks are skipped; a chunk with an untagged
      placeholder or a statement the driver rejects ends the call. */
  function Step<V, D>(c: Call<V, D>, p: Progress<V, D>, i: nat): Progress<V, D>
    requires i < |c.chunks|
  {
    if p.failure.Some? || AllWhitespace(c.chunks[i]) then p
    else match c.resolve(c.chunks[i])
      case Failure(e) => p.(failure := Some(e))
      case Success(b) =>
        var preview := Record(b.sqlText, i + 1, |c.chunks|, b.binds, None, None, None);
        if c.preview then p.(results := p.results + [preview])
        else
          var st := Statement(b.sqlText, b.binds);
          var n := c.before + |p.sent|;
          match c.reply(st, n)
          case Failure(e) => p.(sent := p.sent + [st], failure := Some(e))
          case Success(data) =>
            var total := p.totalDuration + c.elapsed(n);
            var rec := preview.(duration := Some(c.elapsed(n)), totalDuration := Some(total),
                                data := if c.includeResults then Some(data) else None);
            Progress(p.results + [rec], total, p.sent + [st], None)
  }

  /** The state after the first `k` chunks. */
  function Run<V, D>(c: Call<V, D>, k: nat): Progress<V, D>
    requires k <= |c.chunks|
  {
    if k == 0 then Progress([], 0, [], None) else Step(c, Run(c, k - 1), k - 1)
  }

  /** What the returned promise settles to. */
  function Outcome<V, D>(p: Progress<V, D>): Result<seq<Record<V, D>>, string> {
    if p.failure.Some? then Failure(p.failure.value) else Success(p.results)
  }

  // ---------------------------------------------------------------------------
  // The same run, chunk by chunk

  /** The statement chunk `j` becomes once its tags resolve. */
  function StatementOf<V, D>(c: Call<V, D>, j: nat): Statement<V>
    requires j < |c.chunks| && c.resolve(c.chunks[j]).Success?
  {
    var b := c.resolve(c.chunks[j]).value;
    Statement(b.sqlText, b.binds)
  }

  /** The sum of the durations of the statements `from`, ..., `from + count - 1`. */
  function Elapsed(elapsed: nat -> int, from: nat, count: nat): int
    decreases count
  {
    if count == 0 then 0 else Elapsed(elapsed, from, count - 1) + elapsed(from + count - 1)
  }

  /** Chunk `j` goes through: its text is not blank, its tags resolve and, unless this is a
      preview, the driver accepts it. */
  predicate GoesThrough<V, D>(c: Call<V, D>, j: nat)
    requires j < |c.chunks|
  {
    !AllWhitespace(c.chunks[j]) && c.resolve(c.chunks[j]).Success?
    && (!c.preview ==> c.reply(StatementOf(c, j), c.before + j).Success?)
  }

  /** The record of chunk `j` when every chunk up to it goes through. */
  function RecordOf<V, D>(c: Call<V, D>, j: nat): Record<V, D>
    requires j < |c.chunks| && GoesThrough(c, j)
  {
    var st := StatementOf(c, j);
    var n := c.before + j;
    Record(st.sqlText, j + 1, |c.chunks|, st.binds,
           if c.preview then None else Some(c.elapsed(n)),
           if c.preview then None else Some(Elapsed(c.elapsed, c.before, j + 1)),
           if c.preview || !c.includeResults then None else Some(c.reply(st, n).value))
  }

  /** When the first `k` chunks go through, there is one record per chunk, numbered from 1
      out of the total, holding the rewritten text and binds; each executed chunk has
      its own duration and the running total, and its data exactly when results are
      asked for. Every chunk was sent once, in order, and nothing at all in a preview. */
  lemma {:induction false} RunGoesThrough<V, D>(c: Call<V, D>, k: nat)
    requires k <= |c.chunks|
    requires forall j :: 0 <= j < k ==> GoesThrough(c, j)
    ensures Run(c, k).failure == None
    ensures |Run(c, k).results| == k
    ensures forall j :: 0 <= j < k ==> Run(c, k).results[j] == RecordOf(c, j)
    ensures |Run(c, k).sent| == if c.preview then 0 else k
    ensures forall j :: 0 <= j < |Run(c, k).sent| ==> GoesThrough(c, j) && Run(c, k).sent[j] == StatementOf(c, j)
    ensures Run(c, k).totalDuration == if c.preview then 0 else Elapsed(c.elapsed, c.before, k)
  {
    if k > 0 {
      RunGoesThrough(c, k - 1);
      StepKeepsRecords(c, Run(c, k - 1), k - 1);
    }
  }

  /** The records and statements of the chunks before `i` stay in place when chunk `i`
      goes through, and its own are added after them. */
  lemma StepKeepsRecords<V, D>(c: Call<V, D>, p: Progress<V, D>, i: nat)
    requires i < |c.chunks| && GoesThrough(c, i) && p.failure == None
    requires forall j :: 0 <= j < i ==> GoesThrough(c, j)
    requires |p.results| == i
    requires forall j :: 0 <= j < i ==> p.results[j] == RecordOf(c, j)
    requires |p.sent| == if c.preview then 0 else i
    requires forall j :: 0 <= j < |p.sent| ==> GoesThrough(c, j) && p.sent[j] == StatementOf(c, j)
    requires p.totalDuration == if c.preview then 0 else Elapsed(c.elapsed, c.before, i)
    ensures Step(c, p, i).failure == None
    ensures |Step(c, p, i).results| == i + 1
    ensures forall j :: 0 <= j < i + 1 ==> Step(c, p, i).results[j] == RecordOf(c, j)
    ensures |Step(c, p, i).sent| == if c.preview then 0 else i + 1
    ensures forall j :: 0 <= j < |Step(c, p, i).sent| ==> GoesThrough(c, j) && Step(c, p, i).sent[j] == StatementOf(c, j)
    ensures Step(c, p, i).totalDuration == if c.preview then 0 else Elapsed(c.elapsed, c.before, i + 1)
  {
    var q := Step(c, p, i);
    StepGoesThrough(c, p, i);
    forall j | 0 <= j < i + 1 ensures q.results[j] == RecordOf(c, j) {
      if j < i {
        assert q.results[j] == p.results[j];
      }
    }
    forall j | 0 <= j < |q.sent| ensures GoesThrough(c, j) && q.sent[j] == StatementOf(c, j) {
      if j < |p.sent| {
        assert q.sent[j] == p.sent[j];
      }
    }
  }

  /** The step for a chunk that goes through appends its record and, unless this is a
      preview, its statement and duration. */
  lemma StepGoesThrough<V, D>(c: Call<V, D>, p: Progress<V, D>, i: nat)
    requires i < |c.chunks| && GoesThrough(c, i) && p.failure == None
    requires |p.sent| == if c.preview then 0 else i
    requires p.totalDuration == if c.preview then 0 else Elapsed(c.elapsed, c.before, i)
    ensures Step(c, p, i).failure == None
    ensures Step(c, p, i).results == p.results + [RecordOf(c, i)]
    ensures Step(c, p, i).sent == if c.preview then p.sent else p.sent + [StatementOf(c, i)]
    ensures Step(c, p, i).totalDuration
         == if c.preview then 0 else Elapsed(c.elapsed, c.before, i + 1)
  {
    var b := c.resolve(c.chunks[i]).value;
    var st := StatementOf(c, i);
    var n := c.before + i;
    var preview := Record(b.sqlText, i + 1, |c.chunks|, b.binds, None, None, None);
    if c.preview {
      assert Step(c, p, i) == p.(results := p.results + [preview]);
    } else {
      var data := c.reply(st, n).value;
      var total := p.totalDuration + c.elapsed(n);
      var rec := preview.(duration := Some(c.elapsed(n)), totalDuration := Some(total),
                          data := if c.includeResults then Some(data) else None);
      assert Step(c, p, i) == Progress(p.results + [rec], total, p.sent + [st], None);
    }
  }

  /** Once the call has failed, later chunks change nothing. */
  lemma {:induction false} RunStaysFailed<V, D>(c: Call<V, D>, i: nat, k: nat)
    requires i <= k <= |c.chunks| && Run(c, i).failure.Some?
    ensures Run(c, k) == Run(c, i)
    decreases k
  {
    if k > i {
      RunStaysFailed(c, i, k - 1);
    }
  }

  /** A chunk whose tags do not resolve rejects the call with the error of `tagsToBinds`
      (`"###"`), but only after every earlier chunk was sent to the driver. */
  lemma RunFailsOnTag<V, D>(c: Call<V, D>, j: nat)
    requires j < |c.chunks|
    requires forall i :: 0 <= i < j ==> GoesThrough(c, i)
    requires !AllWhitespace(c.chunks[j]) && c.resolve(c.chunks[j]).Failure?
    ensures Outcome(Run(c, |c.chunks|)) == Failure(c.resolve(c.chunks[j]).error)
    ensures |Run(c, |c.chunks|).sent| == if c.preview then 0 else j
    ensures forall i :: 0 <= i < |Run(c, |c.chunks|).sent| ==> GoesThrough(c, i) && Run(c, |c.chunks|).sent[i] == StatementOf(c, i)
  {
    RunGoesThrough(c, j);
    StepFailsOnTag(c, Run(c, j), j);
    RunStaysFailed(c, j + 1, |c.chunks|);
  }

  /** The step for a chunk whose tags do not resolve records the error and nothing else. */
  lemma StepFailsOnTag<V, D>(c: Call<V, D>, p: Progress<V, D>, j: nat)
    requires j < |c.chunks| && p.failure == None
    requires !AllWhitespace(c.chunks[j]) && c.resolve(c.chunks[j]).Failure?
    ensures Step(c, p, j) == p.(failure := Some(c.resolve(c.chunks[j]).error))
  {
  }

  /** A statement the driver rejects ends the call with the driver's error; it was the
      last one sent. */
  lemma RunFailsOnDriver<V, D>(c: Call<V, D>, j: nat)
    requires j < |c.chunks| && !c.preview
    requires forall i :: 0 <= i < j ==> GoesThrough(c, i)
    requires !AllWhitespace(c.chunks[j]) && c.resolve(c.chunks[j]).Success?
    requires c.reply(StatementOf(c, j), c.before + j).Failure?
    ensures Outcome(Run(c, |c.chunks|)) == Failure(c.reply(StatementOf(c, j), c.before + j).error)
    ensures |Run(c, |c.chunks|).sent| == j + 1
    ensures forall i :: 0 <= i < j ==> GoesThrough(c, i) && Run(c, |c.chunks|).sent[i] == StatementOf(c, i)
    ensures Run(c, |c.chunks|).sent[j] == StatementOf(c, j)
  {
    RunGoesThrough(c, j);
    StepFailsOnDriver(c, Run(c, j), j);
    RunStaysFailed(c, j + 1, |c.chunks|);
  }

  /** The step for a statement the driver rejects records it as sent, and the error. */
  lemma StepFailsOnDriver<V, D>(c: Call<V, D>, p: Progress<V, D>, j: nat)
    requires j < |c.chunks| && !c.preview && p.failure == None && |p.sent| == j
    requires !AllWhitespace(c.chunks[j]) && c.resolve(c.chunks[j]).Success?
    requires c.reply(StatementOf(c, j), c.before + j).Failure?
    ensures Step(c, p, j)
         == p.(sent := p.sent + [StatementOf(c, j)],
               failure := Some(c.reply(StatementOf(c, j), c.before + j).error))
  {
  }

  /** A preview never sends anything to the driver, whatever the chunks, and none of its
      records has a duration, a running total or data. */
  lemma {:induction false} PreviewSendsNothing<V, D>(c: Call<V, D>, k: nat)
    requires k <= |c.chunks| && c.preview
    ensures Run(c, k).sent == []
    ensures forall j :: 0 <= j < |Run(c, k).results| ==>
              var rec := Run(c, k).results[j];
              rec.duration == None && rec.totalDuration == None && rec.data == None
  {
    if k > 0 {
      PreviewSendsNothing(c, k - 1);
    }
  }

  /** The chunks of a script are never blank, so the blank test of the loop never skips. */
  lemma ChunksNeverBlank(sqlText: string)
    ensures forall j :: 0 <= j < |Chunks.GetChunks(sqlText)| ==> !AllWhitespace(Chunks.GetChunks(sqlText)[j])
  {
    var chunks := Chunks.GetChunks(sqlText);
    forall j | 0 <= j < |chunks|
      ensures !AllWhitespace(chunks[j])
    {
      TrimKeepsTrimmed(chunks[j]);
      TrimEmptyIff(chunks[j]);
    }
  }

  /** `chunk.trim().length > 0`: the chunk is not blank. */
  method HasText(chunk: string) returns (b: bool)
    ensures b <==> !AllWhitespace(chunk)
  {
    TrimEmptyIff(chunk);
    b := |Trim(chunk)| > 0;
  }

  /** `SnowflakeMultiSql`: a connection to the database. It keeps the statements sent on
      it; the driver's answers and the clock are given when it is made. */
  class SnowflakeMultiSql<V, D> {
    var sent: seq<Statement<V>>
    const reply: (Statement<V>, nat) -> Result<D, string>
    const elapsed: nat -> int

    constructor (reply: (Statement<V>, nat) -> Result<D, string>, elapsed: nat -> int)
      ensures sent == [] && this.reply == reply && this.elapsed == elapsed
    {
      sent := [];
      this.reply := reply;
      this.elapsed := elapsed;
    }

    /** The driver's `execute`, timed by the clock around it. */
    method Execute(st: Statement<V>) returns (r: Result<D, string>, duration: int)
      modifies this
      ensures sent == old(sent) + [st]
      ensures r == reply(st, |old(sent)|) && duration == elapsed(|old(sent)|)
    {
      r := reply(st, |sent|);
      duration := elapsed(|sent|);
      sent := sent + [st];
    }

    /** `executeAll`. The `binds` argument is accepted and not used. */
    method ExecuteAll(sqlText: string, tags: seq<Tag<V>>, binds: seq<V>, preview: bool,
                      includeResults: bool)
      returns (r: Result<seq<Record<V, D>>, string>)
      modifies this
      ensures var c := Call(Chunks.GetChunks(sqlText), s => ResolveTags(s, tags), preview,
                            includeResults, reply, elapsed, |old(sent)|);
              sent == old(sent) + Run(c, |c.chunks|).sent && r == Outcome(Run(c, |c.chunks|))
    {
      var chunks := Chunks.GetChunks(sqlText);
      r := ExecuteChunks(chunks, tags, preview, includeResults);
    }

    /** The loop of `executeAll` over the chunks of the script. */
    method ExecuteChunks(chunks: seq<string>, tags: seq<Tag<V>>, preview: bool,
                         includeResults: bool)
      returns (r: Result<seq<Record<V, D>>, string>)
      modifies this
      ensures var c := Call(chunks, s => ResolveTags(s, tags), preview, includeResults, reply,
                            elapsed, |old(sent)|);
              sent == old(sent) + Run(c, |chunks|).sent && r == Outcome(Run(c, |chunks|))
    {
      ghost var c := Call(chunks, s => ResolveTags(s, tags), preview, includeResults, reply,
                          elapsed, |sent|);
      ghost var before := sent;
      var results: seq<Record<V, D>> := [];
      var totalDuration := 0;
      for i := 0 to |chunks|
        invariant sent == before + Run(c, i).sent
        invariant Run(c, i).failure == None && Run(c, i).results == results
        invariant Run(c, i).totalDuration == totalDuration
      {
        ghost var p := Run(c, i);
        assert c.resolve(chunks[i]) == ResolveTags(chunks[i], tags);
        var failure;
        failure, results, totalDuration := ExecuteChunk(c, p, before, i, chunks[i], |chunks|,
                                                        tags, preview, includeResults, results,
                                                        totalDuration);
        if failure.Some? {
          RunStaysFailed(c, i + 1, |chunks|);
          return Failure(failure.value);
        }
      }
      return Success(results);
    }

    /** One turn of the loop of `executeAll`, for chunk `i`: skipped when blank, rejected
        when a tag is missing, otherwise recorded as a preview or run and timed. */
    method ExecuteChunk(ghost c: Call<V, D>, ghost p: Progress<V, D>, ghost before: seq<Statement<V>>,
                        i: nat, chunk: string, chunksTotal: nat, tags: seq<Tag<V>>,
                        preview: bool, includeResults: bool, results: seq<Record<V, D>>,
                        totalDuration: int)
      returns (failure: Option<string>, results': seq<Record<V, D>>, totalDuration': int)
      requires i < |c.chunks| == chunksTotal && c.chunks[i] == chunk
      requires c.resolve(chunk) == ResolveTags(chunk, tags)
      requires c.preview == preview && c.includeResults == includeResults
      requires c.reply == reply && c.elapsed == elapsed
      requires p.failure == None && p.results == results && p.totalDuration == totalDuration
      requires c.before == |before| && sent == before + p.sent
      modifies this
      ensures sent == before + Step(c, p, i).sent
      ensures failure == Step(c, p, i).failure
      ensures failure == None ==> results' == Step(c, p, i).results
                                  && totalDuration' == Step(c, p, i).totalDuration
    {
      results', totalDuration' := results, totalDuration;
      var hasText := HasText(chunk);
      if !hasText {
        assert Step(c, p, i) == p;
        return None, results', totalDuration';
      }
      var resolved := TagBinds.TagsToBinds(chunk, tags);
      if resolved.Failure? {
        StepFailsOnTag(c, p, i);
        return Some(resolved.error), results', totalDuration';
      }
      var previewObj := Record(resolved.value.sqlText, i + 1, chunksTotal,
                               resolved.value.binds, None, None, None);
      if preview {
        assert Step(c, p, i) == p.(results := p.results + [previewObj]);
        return None, results + [previewObj], totalDuration;
      }
      var st := Statement(resolved.value.sqlText, resolved.value.binds);
      ghost var n := c.before + |p.sent|;
      var data, duration := Execute(st);
      ConcatAssoc(before, p.sent, [st]);
      if data.Failure? {
        assert Step(c, p, i) == p.(sent := p.sent + [st], failure := Some(data.error));
        return Some(data.error), results', totalDuration';
      }
      totalDuration' := totalDuration + duration;
      var topush := previewObj.(duration := Some(duration), totalDuration := Some(totalDuration'));
      if includeResults {
        topush := topush.(data := Some(data.value));
      }
      assert Step(c, p, i) == Progress(results + [topush], totalDuration', p.sent + [st], None);
      return None, results + [topush], totalDuration';
    }
  }
}
