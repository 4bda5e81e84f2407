/** Feeding the IDAT chunks to one streaming decompressor (`inflate_idats` in
    src/chunk_data.rs, `parse_idats` in src/main.rs). The decompressor itself
    (zlib, RFC 1950 and RFC 1951) is the parameter `step`; only the
    orchestration around it is modelled: the output buffer, the input and
    output positions, and the status-driven control flow. */
module IdatInflate {
  import opened Bytes
  import opened Results
  import Chunks

  /** The decompressor's status codes. */
  datatype Status =
    | Done | HasMoreOutput | NeedsMoreInput
    | FailedCannotMakeProgress | BadParam | Adler32Mismatch | Failed

  /** What one call of the decompressor returns: its new state, a status, how
      many input bytes it consumed and the bytes it wrote at the output
      position. */
  datatype StepResult<D> = StepResult(state: D, status: Status, consumed: nat, output: seq<byte>)

  datatype InflateError = StatusError(status: Status) | OutOfFuel

  /** One call's arguments: the decompressor state, the unread input, the
      whole output buffer, the position to write at and whether more input
      follows. */
  datatype Request<D> = Request(state: D, input: seq<byte>, buffer: seq<byte>, outPos: nat, more: bool)

  /** The decompressor reads from `input`, writes at `outPos` into `buffer`
      and never past its end. */
  ghost predicate StepFits<D(!new)>(step: Request<D> -> StepResult<D>) {
    forall q: Request<D> :: q.outPos <= |q.buffer| ==>
      step(q).consumed <= |q.input| && q.outPos + |step(q).output| <= |q.buffer|
  }

  /** `idats.iter().map(|c| c.length).sum()`. */
  function SumLengths(idats: seq<Chunks.Chunk>): (n: nat)
    ensures |idats| == 0 ==> n == 0
  {
    if |idats| == 0 then 0 else SumLengths(idats[..|idats| - 1]) + idats[|idats| - 1].length
  }

  function Zeros(n: nat): (z: seq<byte>)
    ensures |z| == n
  {
    seq(n, _ => 0)
  }

  /** Everything one decompressor call is given. */
  datatype Pending<D> = Pending(chunk: nat, state: D, input: seq<byte>, buffer: seq<byte>, outPos: nat)

  /** One decompressor call and its result. */
  datatype Call<D> = Call(at: Pending<D>, more: bool, result: StepResult<D>)

  predicate Sane<D>(c: Call<D>) {
    c.result.consumed <= |c.at.input| && c.at.outPos + |c.result.output| <= |c.at.buffer|
  }

  /** The buffer after the call: its output written at the output position. */
  function Written<D>(c: Call<D>): (b: seq<byte>)
    requires Sane(c)
    ensures |b| == |c.at.buffer|
  {
    c.at.buffer[..c.at.outPos] + c.result.output + c.at.buffer[c.at.outPos + |c.result.output|..]
  }

  /** The first call: chunk 0 from its start, a zero buffer twice the
      compressed length, output position 0. */
  ghost function Start<D>(idats: seq<Chunks.Chunk>, init: D): Pending<D>
    requires |idats| > 0
  {
    Pending(0, init, idats[0].data, Zeros(2 * SumLengths(idats)), 0)
  }

  /** The status of call `a` lets the loop go on: `HasMoreOutput`, or
      `NeedsMoreInput` when another chunk follows. */
  predicate Continues<D>(a: Call<D>, idats: seq<Chunks.Chunk>) {
    && Sane(a) && a.at.chunk < |idats|
    && (|| a.result.status == HasMoreOutput
        || (a.result.status == NeedsMoreInput && a.at.chunk + 1 < |idats|))
  }

  /** The call made after `a`: on `HasMoreOutput` the same chunk from where
      the input stopped, with the buffer grown by `outPos` zeros; on
      `NeedsMoreInput` the next chunk from its start. */
  function Next<D>(a: Call<D>, idats: seq<Chunks.Chunk>): (b: Pending<D>)
    requires Continues(a, idats)
    ensures b.chunk < |idats| && b.outPos <= |b.buffer|
  {
    var outPos := a.at.outPos + |a.result.output|;
    if a.result.status == HasMoreOutput then
      Pending(a.at.chunk, a.result.state, a.at.input[a.result.consumed..], Written(a) + Zeros(outPos), outPos)
    else
      Pending(a.at.chunk + 1, a.result.state, idats[a.at.chunk + 1].data, Written(a), outPos)
  }

  ghost predicate Links<D>(a: Call<D>, b: Pending<D>, idats: seq<Chunks.Chunk>) {
    Continues(a, idats) && b == Next(a, idats)
  }

  /** `c` is the call the loop makes with `c.at`: only the last chunk is
      decompressed without the more-input flag. */
  ghost predicate Made<D>(c: Call<D>, idats: seq<Chunks.Chunk>, step: Request<D> -> StepResult<D>) {
    && c.at.chunk < |idats|
    && c.more == (c.at.chunk != |idats| - 1)
    && c.result == step(Request(c.at.state, c.at.input, c.at.buffer, c.at.outPos, c.more))
  }

  /** The calls the loop makes, in order: the first from `Start`, each later
      one linked to the one before. */
  ghost predicate Trace<D>(calls: seq<Call<D>>, idats: seq<Chunks.Chunk>,
                           step: Request<D> -> StepResult<D>, init: D)
    decreases |calls|
  {
    if |calls| == 0 then true
    else
      var n := |calls| - 1;
      && Trace(calls[..n], idats, step, init)
      && Made(calls[n], idats, step) && Sane(calls[n])
      && (n == 0 ==> calls[n].at == Start(idats, init))
      && (n > 0 ==> Links(calls[n - 1], calls[n].at, idats))
  }

  /** What a trace says about its `i`-th call. */
  lemma {:induction false} TraceAt<D>(calls: seq<Call<D>>, idats: seq<Chunks.Chunk>,
                                      step: Request<D> -> StepResult<D>, init: D, i: nat)
    requires Trace(calls, idats, step, init) && i < |calls|
    ensures Made(calls[i], idats, step) && Sane(calls[i])
    ensures i == 0 ==> calls[i].at == Start(idats, init)
    ensures i > 0 ==> Links(calls[i - 1], calls[i].at, idats)
    decreases |calls|
  {
    var n := |calls| - 1;
    if i < n {
      TraceAt(calls[..n], idats, step, init, i);
      assert calls[..n][i] == calls[i];
      if i > 0 {
        assert calls[..n][i - 1] == calls[i - 1];
      }
    }
  }

  /** The bytes the decompressor produced over the calls, in order. */
  ghost function Produced<D>(calls: seq<Call<D>>): seq<byte> {
    if |calls| == 0 then [] else Produced(calls[..|calls| - 1]) + calls[|calls| - 1].result.output
  }

  /** The loop is about to call the decompressor with `p`, after `calls`,
      with `budget` calls left. */
  ghost predicate Ready<D>(calls: seq<Call<D>>, p: Pending<D>, idats: seq<Chunks.Chunk>,
                           step: Request<D> -> StepResult<D>, init: D,
                           fuel: nat, budget: nat) {
    && Trace(calls, idats, step, init)
    && |calls| + budget == fuel
    && p.chunk < |idats|
    && p.outPos <= |p.buffer| && p.buffer[..p.outPos] == Produced(calls)
    && (|calls| == 0 ==> p == Start(idats, init))
    && (|calls| > 0 ==> Links(calls[|calls| - 1], p, idats))
  }

  /** How a run ends, whichever way it ends. */
  ghost predicate Outcome<D>(r: Result<seq<byte>, InflateError>, calls: seq<Call<D>>, idats: seq<Chunks.Chunk>,
                             step: Request<D> -> StepResult<D>, init: D, fuel: nat) {
    && Trace(calls, idats, step, init)
    && |calls| <= fuel
    && (|idats| == 0 ==> r == Ok([]) && calls == [])
    && (r.Ok? && |idats| > 0 ==>
      |calls| > 0 && calls[|calls| - 1].result.status == Done && r.value == Produced(calls))
    && (r.Err? && r.error.StatusError? ==>
      && |calls| > 0
      && var last := calls[|calls| - 1];
      && r.error.status == last.result.status
      && last.result.status !in {Done, HasMoreOutput}
      && (last.result.status == NeedsMoreInput ==> !last.more))
    && (r == Err(OutOfFuel) ==> |calls| == fuel)
  }

  /** The call the loop makes with `p`: only the last chunk is decompressed
      without the more-input flag. */
  function MakeCall<D>(idats: seq<Chunks.Chunk>, step: Request<D> -> StepResult<D>, p: Pending<D>): (c: Call<D>)
    requires p.chunk < |idats|
    ensures c.at == p && Made(c, idats, step)
  {
    var more := p.chunk != |idats| - 1;
    Call(p, more, step(Request(p.state, p.input, p.buffer, p.outPos, more)))
  }

  /** A run: its result and the calls it made. */
  datatype Run<D> = Run(r: Result<seq<byte>, InflateError>, calls: seq<Call<D>>)

  /** The run of the loop from the pending call `p`, with at most `budget`
      calls left: `Done` returns the buffer cut at the output position,
      `HasMoreOutput`, and `NeedsMoreInput` before the last chunk, go on with
      `Next`, any other status is an error. */
  ghost function RunFrom<D(!new)>(idats: seq<Chunks.Chunk>, step: Request<D> -> StepResult<D>,
                                  p: Pending<D>, budget: nat): Run<D>
    requires StepFits(step)
    requires p.chunk < |idats| && p.outPos <= |p.buffer|
    decreases budget
  {
    if budget == 0 then Run(Err(OutOfFuel), [])
    else
      var c := MakeCall(idats, step, p);
      if Continues(c, idats) then
        var rest := RunFrom(idats, step, Next(c, idats), budget - 1);
        Run(rest.r, [c] + rest.calls)
      else
        assert Sane(c) by { FitsSane(step, c); }
        Run(Ending(c), [c])
  }

  /** How a call that does not let the loop go on ends the run: `Done`
      returns the buffer cut at the output position, any other status is an
      error. */
  function Ending<D>(c: Call<D>): Result<seq<byte>, InflateError>
    requires Sane(c)
  {
    if c.result.status == Done then Ok(Written(c)[..c.at.outPos + |c.result.output|])
    else Err(StatusError(c.result.status))
  }

  lemma FitsSane<D(!new)>(step: Request<D> -> StepResult<D>, c: Call<D>)
    requires StepFits(step) && c.at.outPos <= |c.at.buffer|
    requires c.result == step(Request(c.at.state, c.at.input, c.at.buffer, c.at.outPos, c.more))
    ensures Sane(c)
  {
    var q := Request(c.at.state, c.at.input, c.at.buffer, c.at.outPos, c.more);
    assert q.outPos <= |q.buffer|;
  }

  /** The whole run of `inflate_idats`: nothing to do without chunks. */
  ghost function Inflate<D(!new)>(idats: seq<Chunks.Chunk>, step: Request<D> -> StepResult<D>,
                                  init: D, fuel: nat): Run<D>
    requires StepFits(step)
  {
    if |idats| == 0 then Run(Ok([]), []) else RunFrom(idats, step, Start(idats, init), fuel)
  }

  /** `inflate_idats`. The decompressor is called first on chunk 0 with a
      zero buffer of twice the summed chunk lengths; `HasMoreOutput` grows the
      buffer by `outPos` zeros and calls again on the rest of the chunk,
      `NeedsMoreInput` moves on to the next chunk (and is an error on the
      last), `Done` truncates the buffer to `outPos` and returns it, any other
      status is an error. The result is exactly the bytes the decompressor
      produced, in order. At most `fuel` calls are made. */
  method InflateIdats<D(!new)>(idats: seq<Chunks.Chunk>, step: Request<D> -> StepResult<D>,
                               init: D, fuel: nat)
    returns (r: Result<seq<byte>, InflateError>, ghost calls: seq<Call<D>>)
    requires SumLengths(idats) < 0x1_0000_0000
    requires StepFits(step)
    ensures Run(r, calls) == Inflate(idats, step, init, fuel)
    ensures Trace(calls, idats, step, init)
    ensures |calls| <= fuel
    ensures |idats| == 0 ==> r == Ok([]) && calls == []
    ensures r.Ok? && |idats| > 0 ==>
      |calls| > 0 && calls[|calls| - 1].result.status == Done && r.value == Produced(calls)
    ensures r.Err? && r.error.StatusError? ==>
      && |calls| > 0
      && var last := calls[|calls| - 1];
      && r.error.status == last.result.status
      && last.result.status !in {Done, HasMoreOutput}
      && (last.result.status == NeedsMoreInput ==> !last.more)
    ensures r == Err(OutOfFuel) ==> |calls| == fuel
  {
    var compressedLength := SumLengths(idats);
    var ret := Zeros(2 * compressedLength);
    ghost var final := Inflate(idats, step, init, fuel);
    r, calls := FeedIdats(idats, step, init, ret, fuel, final);
    InflateOutcome(idats, step, init, fuel);
  }

  /** The chunk loop of `inflate_idats`, from the zero buffer `ret` with
      `fuel` calls allowed, ending as `final`. */
  method FeedIdats<D(!new)>(idats: seq<Chunks.Chunk>, step: Request<D> -> StepResult<D>, init: D,
                            ret0: seq<byte>, fuel: nat, ghost final: Run<D>)
    returns (r: Result<seq<byte>, InflateError>, ghost calls: seq<Call<D>>)
    requires StepFits(step)
    requires |idats| == 0 ==> final == Run(Ok(ret0), []) && ret0 == []
    requires |idats| > 0 ==> Resumes(final, [], idats, step, Pending(0, init, idats[0].data, ret0, 0), fuel)
    ensures Run(r, calls) == final
  {
    var ret := ret0;
    var decomp := init;
    var outPos: nat := 0;
    var budget: nat := fuel;
    calls := [];
    var id := 0;
    ghost var q := Pending(0, init, if |idats| > 0 then idats[0].data else [], ret0, 0);
    while id < |idats|
      invariant 0 <= id <= |idats|
      invariant id < |idats| ==> Resumes(final, calls, idats, step, q, budget)
      invariant id < |idats| ==> q == Pending(id, decomp, idats[id].data, ret, outPos)
      invariant id == |idats| ==> |idats| == 0 && calls == [] && ret == []
    {
      var outcome;
      outcome, decomp, ret, outPos, budget, calls, q := FeedChunk(idats, step, id, decomp, ret, outPos, budget, calls, final, q);
      if outcome.Finished? {
        return outcome.r, calls;
      }
      id := id + 1;
    }
    r := Ok(ret);
  }

  /** Where control goes after one decompressor call. */
  datatype Control = Again | NextChunk | Finished(r: Result<seq<byte>, InflateError>)

  /** The inner loop of `inflate_idats`: decompresses chunk `id` until the
      decompressor asks for the next chunk or the run ends. */
  method FeedChunk<D(!new)>(idats: seq<Chunks.Chunk>, step: Request<D> -> StepResult<D>, id: nat,
                            decomp0: D, ret0: seq<byte>, outPos0: nat, budget0: nat,
                            ghost calls0: seq<Call<D>>, ghost final: Run<D>, ghost q0: Pending<D>)
    returns (outcome: Control, decomp: D, ret: seq<byte>, outPos: nat, budget: nat,
             ghost calls: seq<Call<D>>, ghost q: Pending<D>)
    requires id < |idats|
    requires Resumes(final, calls0, idats, step, q0, budget0)
    requires q0 == Pending(id, decomp0, idats[id].data, ret0, outPos0)
    ensures !outcome.Again?
    ensures outcome.Finished? ==> Run(outcome.r, calls) == final
    ensures outcome.NextChunk? ==>
      && id + 1 < |idats| && Resumes(final, calls, idats, step, q, budget)
      && q == Pending(id + 1, decomp, idats[id + 1].data, ret, outPos)
  {
    decomp, ret, outPos, budget, calls := decomp0, ret0, outPos0, budget0, calls0;
    var inPos: nat := 0;
    var input := idats[id].data;
    var more := id != |idats| - 1;
    q := q0;
    while true
      invariant inPos <= |input| && input == idats[id].data
      invariant Resumes(final, calls, idats, step, q, budget)
      invariant q == Pending(id, decomp, input[inPos..], ret, outPos)
      decreases budget
    {
      if budget == 0 {
        return Finished(Err(OutOfFuel)), decomp, ret, outPos, budget, calls, q;
      }
      outcome, decomp, ret, inPos, outPos, budget, calls, q :=
        Decompress(idats, step, id, input, more, decomp, ret, inPos, outPos, budget, calls, final, q);
      if !outcome.Again? {
        return;
      }
    }
  }

  /** One pass through the inner loop: one decompressor call at `inPos` and
      `outPos`, the positions advanced, and the status acted on. */
  method Decompress<D(!new)>(idats: seq<Chunks.Chunk>, step: Request<D> -> StepResult<D>, id: nat,
                             input: seq<byte>, more: bool,
                             decomp0: D, ret0: seq<byte>, inPos0: nat, outPos0: nat, budget0: nat,
                             ghost calls0: seq<Call<D>>, ghost final: Run<D>, ghost q0: Pending<D>)
    returns (outcome: Control, decomp: D, ret: seq<byte>, inPos: nat, outPos: nat, budget: nat,
             ghost calls: seq<Call<D>>, ghost q: Pending<D>)
    requires id < |idats| && input == idats[id].data && more == (id != |idats| - 1)
    requires inPos0 <= |input| && budget0 > 0
    requires Resumes(final, calls0, idats, step, q0, budget0)
    requires q0 == Pending(id, decomp0, input[inPos0..], ret0, outPos0)
    ensures budget < budget0
    ensures outcome.Again? ==>
      && inPos <= |input| && Resumes(final, calls, idats, step, q, budget)
      && q == Pending(id, decomp, input[inPos..], ret, outPos)
    ensures outcome.Finished? ==> Run(outcome.r, calls) == final
    ensures outcome.NextChunk? ==>
      && id + 1 < |idats| && Resumes(final, calls, idats, step, q, budget)
      && q == Pending(id + 1, decomp, idats[id + 1].data, ret, outPos)
  {
    var res := step(Request(decomp0, input[inPos0..], ret0, outPos0, more));
    ghost var c := MakeCall(idats, step, q0);
    FitsSane(step, c);
    calls := calls0 + [c];
    budget := budget0 - 1;
    ret := ret0[..outPos0] + res.output + ret0[outPos0 + |res.output|..];
    inPos := inPos0 + res.consumed;
    outPos := outPos0 + |res.output|;
    decomp := res.state;
    q := q0;
    assert ret == Written(c);
    if res.status == Done {
      ret := ret[..outPos];
      outcome := Finished(Ok(ret));
      ResumeEnd(final, calls0, idats, step, q0, budget0, c, calls);
    } else if res.status == HasMoreOutput {
      ret := ret + Zeros(outPos);
      MoreOutputNext(c, idats, input, inPos0, inPos, ret, outPos);
      q := Next(c, idats);
      ResumeNext(final, calls0, idats, step, q0, budget0, c, calls, q, budget);
      outcome := Again;
    } else if res.status == NeedsMoreInput && more {
      MoreInputNext(c, idats, ret, outPos);
      q := Next(c, idats);
      ResumeNext(final, calls0, idats, step, q0, budget0, c, calls, q, budget);
      outcome := NextChunk;
    } else {
      outcome := Finished(Err(StatusError(res.status)));
      ResumeEnd(final, calls0, idats, step, q0, budget0, c, calls);
    }
  }

  /** A call that continues leaves the loop resuming from `Next`. */
  lemma ResumeNext<D(!new)>(final: Run<D>, calls0: seq<Call<D>>, idats: seq<Chunks.Chunk>,
                            step: Request<D> -> StepResult<D>, p: Pending<D>, budget0: nat,
                            c: Call<D>, calls: seq<Call<D>>, q: Pending<D>, budget: nat)
    requires Resumes(final, calls0, idats, step, p, budget0) && budget0 > 0
    requires c == MakeCall(idats, step, p) && Continues(c, idats)
    requires calls == calls0 + [c] && q == Next(c, idats) && budget == budget0 - 1
    ensures Resumes(final, calls, idats, step, q, budget)
  {
    ResumeStep(final, calls0, idats, step, p, budget0);
  }

  /** A call that does not continue ends the run `final`. */
  lemma ResumeEnd<D(!new)>(final: Run<D>, calls0: seq<Call<D>>, idats: seq<Chunks.Chunk>,
                           step: Request<D> -> StepResult<D>, p: Pending<D>, budget0: nat,
                           c: Call<D>, calls: seq<Call<D>>)
    requires Resumes(final, calls0, idats, step, p, budget0) && budget0 > 0
    requires c == MakeCall(idats, step, p) && !Continues(c, idats)
    requires calls == calls0 + [c]
    ensures Sane(c) && final == Run(Ending(c), calls)
  {
    ResumeStep(final, calls0, idats, step, p, budget0);
  }

  /** On `HasMoreOutput` the next call resumes the same chunk where the
      input stopped, with the grown buffer. */
  lemma MoreOutputNext<D>(c: Call<D>, idats: seq<Chunks.Chunk>, input: seq<byte>,
                          inPos0: nat, inPos: nat, ret: seq<byte>, outPos: nat)
    requires Continues(c, idats) && c.result.status == HasMoreOutput
    requires inPos0 <= |input| && c.at.input == input[inPos0..] && inPos == inPos0 + c.result.consumed
    requires outPos == c.at.outPos + |c.result.output| && ret == Written(c) + Zeros(outPos)
    ensures inPos <= |input|
    ensures Next(c, idats) == Pending(c.at.chunk, c.result.state, input[inPos..], ret, outPos)
  {
    assert input[inPos..] == c.at.input[c.result.consumed..];
  }

  /** On `NeedsMoreInput` the next call starts the next chunk, with the
      buffer as the call left it. */
  lemma MoreInputNext<D>(c: Call<D>, idats: seq<Chunks.Chunk>, ret: seq<byte>, outPos: nat)
    requires Continues(c, idats) && c.result.status == NeedsMoreInput
    requires outPos == c.at.outPos + |c.result.output| && ret == Written(c)
    ensures c.at.chunk + 1 < |idats|
    ensures Next(c, idats) == Pending(c.at.chunk + 1, c.result.state, idats[c.at.chunk + 1].data, ret, outPos)
  {
  }

  /** The loop, about to call the decompressor with `p` after `calls`, ends
      the way `final` says. */
  ghost predicate Resumes<D(!new)>(final: Run<D>, calls: seq<Call<D>>, idats: seq<Chunks.Chunk>,
                                   step: Request<D> -> StepResult<D>, p: Pending<D>, budget: nat) {
    && StepFits(step)
    && p.chunk < |idats| && p.outPos <= |p.buffer|
    && final.r == RunFrom(idats, step, p, budget).r
    && final.calls == calls + RunFrom(idats, step, p, budget).calls
  }

  /** One call of the loop: the run either ends with that call, as
      `RunFrom` says, or resumes from `Next`. */
  lemma ResumeStep<D(!new)>(final: Run<D>, calls: seq<Call<D>>, idats: seq<Chunks.Chunk>,
                            step: Request<D> -> StepResult<D>, p: Pending<D>, budget: nat)
    requires Resumes(final, calls, idats, step, p, budget) && budget > 0
    ensures var c := MakeCall(idats, step, p);
      && Sane(c)
      && (Continues(c, idats) ==> Resumes(final, calls + [c], idats, step, Next(c, idats), budget - 1))
      && (!Continues(c, idats) ==> final == Run(Ending(c), calls + [c]))
  {
    var c := MakeCall(idats, step, p);
    FitsSane(step, c);
    if Continues(c, idats) {
      var rest := RunFrom(idats, step, Next(c, idats), budget - 1);
      assert calls + ([c] + rest.calls) == calls + [c] + rest.calls;
    }
  }

  /** Whatever the decompressor does, the run is a trace of the loop and
      ends as `Outcome` says. */
  lemma InflateOutcome<D(!new)>(idats: seq<Chunks.Chunk>, step: Request<D> -> StepResult<D>, init: D, fuel: nat)
    requires StepFits(step)
    ensures Outcome(Inflate(idats, step, init, fuel).r, Inflate(idats, step, init, fuel).calls, idats, step, init, fuel)
  {
    if |idats| > 0 {
      RunOutcome(idats, step, init, fuel, [], Start(idats, init), fuel, Inflate(idats, step, init, fuel), [] + Inflate(idats, step, init, fuel).calls);
      assert [] + RunFrom(idats, step, Start(idats, init), fuel).calls == Inflate(idats, step, init, fuel).calls;
    }
  }

  /** From any ready state the rest of the run, `run`, completes a trace. */
  lemma {:induction false} RunOutcome<D(!new)>(idats: seq<Chunks.Chunk>, step: Request<D> -> StepResult<D>,
                                               init: D, fuel: nat, calls: seq<Call<D>>, p: Pending<D>, budget: nat,
                                               run: Run<D>, all: seq<Call<D>>)
    requires StepFits(step)
    requires Ready(calls, p, idats, step, init, fuel, budget)
    requires run == RunFrom(idats, step, p, budget) && all == calls + run.calls
    ensures Outcome(run.r, all, idats, step, init, fuel)
    decreases budget
  {
    if budget == 0 {
      OutOfFuelOutcome(calls, p, idats, step, init, fuel);
      assert calls + run.calls == calls;
    } else if Continues(MakeCall(idats, step, p), idats) {
      var c := MakeCall(idats, step, p);
      var q := Next(c, idats);
      var calls' := ReadyNext(calls, p, c, q, idats, step, init, fuel, budget);
      var rest := RunFrom(idats, step, q, budget - 1);
      RunOutcome(idats, step, init, fuel, calls', q, budget - 1, rest, calls' + rest.calls);
      ContinueRun(calls, p, idats, step, init, fuel, budget, run);
    } else {
      EndRun(calls, p, idats, step, init, fuel, budget, run);
    }
  }

  /** The call the loop makes from a ready state, when it continues, leaves
      the loop ready for the next one. */
  lemma ReadyNext<D(!new)>(calls: seq<Call<D>>, p: Pending<D>, c: Call<D>, q: Pending<D>, idats: seq<Chunks.Chunk>,
                           step: Request<D> -> StepResult<D>, init: D, fuel: nat, budget: nat)
    returns (calls': seq<Call<D>>)
    requires StepFits(step) && budget > 0
    requires Ready(calls, p, idats, step, init, fuel, budget)
    requires c == MakeCall(idats, step, p) && Continues(c, idats) && q == Next(c, idats)
    ensures calls' == calls + [c]
    ensures Ready(calls', q, idats, step, init, fuel, budget - 1)
  {
    calls' := calls + [c];
    AfterCall(calls, c, idats, step, init, fuel, budget - 1);
    ContinueOutcome(calls, c, q, idats, step, init, fuel, budget - 1);
  }


  /** A continuing call heads the run: how the rest ends is how the run ends. */
  lemma ContinueRun<D(!new)>(calls: seq<Call<D>>, p: Pending<D>, idats: seq<Chunks.Chunk>,
                             step: Request<D> -> StepResult<D>, init: D, fuel: nat, budget: nat, run: Run<D>)
    requires StepFits(step) && budget > 0 && p.chunk < |idats| && p.outPos <= |p.buffer|
    requires Continues(MakeCall(idats, step, p), idats)
    requires run == RunFrom(idats, step, p, budget)
    requires var c := MakeCall(idats, step, p);
      var rest := RunFrom(idats, step, Next(c, idats), budget - 1);
      Outcome(rest.r, calls + [c] + rest.calls, idats, step, init, fuel)
    ensures Outcome(run.r, calls + run.calls, idats, step, init, fuel)
  {
    var c := MakeCall(idats, step, p);
    var rest := RunFrom(idats, step, Next(c, idats), budget - 1);
    RunCons(idats, step, p, budget, calls);
    SameOutcome(rest.r, calls + [c] + rest.calls, run.r, calls + run.calls, idats, step, init, fuel);
  }

  /** From a ready state whose call does not continue, the run ends with it. */
  lemma EndRun<D(!new)>(calls: seq<Call<D>>, p: Pending<D>, idats: seq<Chunks.Chunk>,
                        step: Request<D> -> StepResult<D>, init: D, fuel: nat, budget: nat, run: Run<D>)
    requires StepFits(step) && budget > 0
    requires Ready(calls, p, idats, step, init, fuel, budget)
    requires !Continues(MakeCall(idats, step, p), idats)
    requires run == RunFrom(idats, step, p, budget)
    ensures Outcome(run.r, calls + run.calls, idats, step, init, fuel)
  {
    var c := MakeCall(idats, step, p);
    AfterCall(calls, c, idats, step, init, fuel, budget - 1);
    EndOutcome(calls, c, idats, step, init, fuel);
    RunEnd(idats, step, p, budget, calls);
    SameOutcome(Ending(c), calls + [c], run.r, calls + run.calls, idats, step, init, fuel);
  }

  lemma SameOutcome<D>(r: Result<seq<byte>, InflateError>, calls: seq<Call<D>>,
                       r': Result<seq<byte>, InflateError>, calls': seq<Call<D>>,
                       idats: seq<Chunks.Chunk>, step: Request<D> -> StepResult<D>, init: D, fuel: nat)
    requires Outcome(r, calls, idats, step, init, fuel) && r == r' && calls == calls'
    ensures Outcome(r', calls', idats, step, init, fuel)
  {
  }

  /** A call that does not continue is the last of the run. */
  lemma RunEnd<D(!new)>(idats: seq<Chunks.Chunk>, step: Request<D> -> StepResult<D>,
                        p: Pending<D>, budget: nat, calls: seq<Call<D>>)
    requires StepFits(step) && p.chunk < |idats| && p.outPos <= |p.buffer| && budget > 0
    requires !Continues(MakeCall(idats, step, p), idats)
    ensures var c := MakeCall(idats, step, p);
      var run := RunFrom(idats, step, p, budget);
      Sane(c) && run.r == Ending(c) && calls + run.calls == calls + [c]
  {
    FitsSane(step, MakeCall(idats, step, p));
  }

  /** A continuing call heads the rest of the run. */
  lemma RunCons<D(!new)>(idats: seq<Chunks.Chunk>, step: Request<D> -> StepResult<D>,
                         p: Pending<D>, budget: nat, calls: seq<Call<D>>)
    requires StepFits(step) && p.chunk < |idats| && p.outPos <= |p.buffer| && budget > 0
    requires Continues(MakeCall(idats, step, p), idats)
    ensures var c := MakeCall(idats, step, p);
      var run := RunFrom(idats, step, p, budget);
      var rest := RunFrom(idats, step, Next(c, idats), budget - 1);
      run.r == rest.r && calls + run.calls == calls + [c] + rest.calls
  {
    var c := MakeCall(idats, step, p);
    var rest := RunFrom(idats, step, Next(c, idats), budget - 1);
    assert calls + ([c] + rest.calls) == calls + [c] + rest.calls;
  }

  /** A call that does not let the loop go on ends the run as `Ending` says. */
  lemma EndOutcome<D>(calls: seq<Call<D>>, c: Call<D>, idats: seq<Chunks.Chunk>,
                      step: Request<D> -> StepResult<D>, init: D, fuel: nat)
    requires Sane(c) && Trace(calls + [c], idats, step, init) && |calls| < fuel
    requires Produced(calls + [c]) == Written(c)[..c.at.outPos + |c.result.output|]
    requires !Continues(c, idats)
    ensures Outcome(Ending(c), calls + [c], idats, step, init, fuel)
  {
    if c.result.status != Done {
      StopOutcome(calls, c, idats, step, init, fuel);
    }
  }

  /** The call the loop makes from a ready state extends the trace, and the
      buffer it leaves holds everything produced so far. */
  lemma AfterCall<D(!new)>(calls: seq<Call<D>>, c: Call<D>, idats: seq<Chunks.Chunk>,
                           step: Request<D> -> StepResult<D>, init: D, fuel: nat, budget: nat)
    requires StepFits(step)
    requires Ready(calls, c.at, idats, step, init, fuel, budget + 1)
    requires c.more == (c.at.chunk != |idats| - 1)
    requires c.result == step(Request(c.at.state, c.at.input, c.at.buffer, c.at.outPos, c.more))
    ensures Sane(c)
    ensures Trace(calls + [c], idats, step, init)
    ensures Produced(calls + [c]) == Written(c)[..c.at.outPos + |c.result.output|]
  {
    ProducedSnoc(calls, c);
    TraceSnoc(calls, c, idats, step, init);
    WrittenPrefix(c);
  }

  lemma OutOfFuelOutcome<D>(calls: seq<Call<D>>, p: Pending<D>, idats: seq<Chunks.Chunk>,
                            step: Request<D> -> StepResult<D>, init: D, fuel: nat)
    requires Ready(calls, p, idats, step, init, fuel, 0)
    ensures Outcome(Err(OutOfFuel), calls, idats, step, init, fuel)
  {
  }

  /** A call whose status ends the run. */
  lemma StopOutcome<D>(calls: seq<Call<D>>, c: Call<D>, idats: seq<Chunks.Chunk>,
                       step: Request<D> -> StepResult<D>, init: D, fuel: nat)
    requires Trace(calls + [c], idats, step, init) && |calls| < fuel
    requires c.result.status !in {Done, HasMoreOutput}
    requires c.result.status == NeedsMoreInput ==> !c.more
    ensures Outcome(Err(StatusError(c.result.status)), calls + [c], idats, step, init, fuel)
  {
  }

  /** A call whose status lets the loop go on, to the pending call `p`. */
  lemma ContinueOutcome<D>(calls: seq<Call<D>>, c: Call<D>, p: Pending<D>, idats: seq<Chunks.Chunk>,
                           step: Request<D> -> StepResult<D>, init: D, fuel: nat, budget: nat)
    requires Sane(c) && Trace(calls + [c], idats, step, init) && |calls| + 1 + budget == fuel
    requires Produced(calls + [c]) == Written(c)[..c.at.outPos + |c.result.output|]
    requires Links(c, p, idats)
    ensures Ready(calls + [c], p, idats, step, init, fuel, budget)
  {
    LinkKeepsOutput(c, p, idats);
    WrittenPrefix(c);
  }

  lemma ProducedSnoc<D>(calls: seq<Call<D>>, c: Call<D>)
    ensures Produced(calls + [c]) == Produced(calls) + c.result.output
  {
    assert (calls + [c])[..|calls|] == calls;
  }

  lemma WrittenPrefix<D>(c: Call<D>)
    requires Sane(c)
    ensures Written(c)[..c.at.outPos + |c.result.output|] == c.at.buffer[..c.at.outPos] + c.result.output
  {
  }

  /** Appending the call the loop makes next keeps a trace a trace. */
  lemma TraceSnoc<D>(calls: seq<Call<D>>, c: Call<D>, idats: seq<Chunks.Chunk>,
                     step: Request<D> -> StepResult<D>, init: D)
    requires Trace(calls, idats, step, init)
    requires Made(c, idats, step) && Sane(c)
    requires |calls| == 0 ==> c.at == Start(idats, init)
    requires |calls| > 0 ==> Links(calls[|calls| - 1], c.at, idats)
    ensures Trace(calls + [c], idats, step, init)
  {
    var t := calls + [c];
    assert t[..|calls|] == calls;
    if |calls| > 0 {
      assert t[|calls| - 1] == calls[|calls| - 1];
    }
  }

  /** Along a trace the chunks are visited in order, never going back. */
  lemma {:induction false} TraceChunksAscend<D>(calls: seq<Call<D>>, idats: seq<Chunks.Chunk>,
                                                step: Request<D> -> StepResult<D>, init: D,
                                                i: nat, j: nat)
    requires Trace(calls, idats, step, init)
    requires i <= j < |calls|
    ensures calls[i].at.chunk <= calls[j].at.chunk
    decreases j - i
  {
    if i < j {
      TraceChunksAscend(calls, idats, step, init, i + 1, j);
      TraceAt(calls, idats, step, init, i + 1);
    }
  }

  /** Every call sees, in front of its output position, exactly the bytes
      produced before it: growing the buffer never disturbs finished output. */
  lemma {:induction false} BufferHoldsOutput<D>(calls: seq<Call<D>>, idats: seq<Chunks.Chunk>,
                                                step: Request<D> -> StepResult<D>, init: D,
                                                i: nat)
    requires Trace(calls, idats, step, init)
    requires i < |calls|
    ensures calls[i].at.outPos <= |calls[i].at.buffer|
    ensures calls[i].at.buffer[..calls[i].at.outPos] == Produced(calls[..i])
  {
    TraceAt(calls, idats, step, init, i);
    if i > 0 {
      BufferHoldsOutput(calls, idats, step, init, i - 1);
      var a := calls[i - 1];
      LinkKeepsOutput(a, calls[i].at, idats);
      ProducedSnoc(calls[..i - 1], a);
      assert calls[..i] == calls[..i - 1] + [a];
    }
  }

  /** One step of the loop keeps the output in front of the output position
      and appends what the call produced. */
  lemma LinkKeepsOutput<D>(a: Call<D>, b: Pending<D>, idats: seq<Chunks.Chunk>)
    requires Links(a, b, idats)
    ensures b.outPos <= |b.buffer|
    ensures b.buffer[..b.outPos] == a.at.buffer[..a.at.outPos] + a.result.output
  {
    WrittenPrefix(a);
    if a.result.status == HasMoreOutput {
      assert (Written(a) + Zeros(b.outPos))[..b.outPos] == Written(a)[..b.outPos];
    }
  }

  /** Each call's input is what is left of its chunk: a suffix of the chunk's
      data. */
  lemma {:induction false} InputIsChunkSuffix<D>(calls: seq<Call<D>>, idats: seq<Chunks.Chunk>,
                                                 step: Request<D> -> StepResult<D>, init: D,
                                                 i: nat)
    requires Trace(calls, idats, step, init)
    requires i < |calls|
    ensures calls[i].at.chunk < |idats|
    ensures var data := idats[calls[i].at.chunk].data;
      |calls[i].at.input| <= |data| && calls[i].at.input == data[|data| - |calls[i].at.input|..]
  {
    TraceAt(calls, idats, step, init, i);
    if i > 0 {
      InputIsChunkSuffix(calls, idats, step, init, i - 1);
      var a := calls[i - 1];
      if a.result.status == HasMoreOutput {
        SuffixDrop(idats[a.at.chunk].data, a.at.input, a.result.consumed);
      }
    }
  }

  /** Dropping consumed bytes from a suffix leaves a suffix. */
  lemma SuffixDrop(data: seq<byte>, input: seq<byte>, consumed: nat)
    requires |input| <= |data| && input == data[|data| - |input|..] && consumed <= |input|
    ensures input[consumed..] == data[|data| - |input[consumed..]|..]
  {
    assert input[consumed..] == data[|data| - |input| + consumed..];
  }
}
