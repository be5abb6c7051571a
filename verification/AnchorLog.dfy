/**
 * The signer's operations over the byte-level log. Each method is one step of
 * AnchorRuns: if the file holds a state before it, it holds the next state after.
 */
module AnchorLog {
  import opened Bytes
  import opened MerkleTree
  import opened Anchor
  import opened AnchorOutcomes
  import opened AnchorRuns
  import opened IntentLog

  /** The file spells the rows of the state, or the state is broken and so is the file. */
  ghost predicate Holds(c: Codec<Row>, file: bytes, s: State) {
    if s.broken then Broken(c, file) else file == Lines(c, Rows(s.history))
  }

  function OutcomeOf(landed: nat, length: nat): Outcome {
    if landed == 0 then NotLanded else if landed == length then Landed else TornLine
  }

  /** Any prefix of a line that lands is one of the three outcomes of the abstract append. */
  lemma {:induction false} AppendRefines(c: Codec<Row>, file: bytes, s: State, e: Event, landed: nat)
    requires GoodCodec(c) && Holds(c, file, s) && e.kind != Sent && landed <= |Line(c, e.row)|
    ensures Holds(
      c, file + Line(c, e.row)[..landed], AnchorRuns.Append(s, e, OutcomeOf(landed, |Line(c, e.row)|)))
  {
    hide Broken, GoodCodec, Rows, Lines;
    var line := Line(c, e.row);
    if s.broken {
      BrokenStaysBroken(c, file, e.row, landed);
    } else if landed == 0 {
      assert file + line[..0] == file;
    } else if landed == |line| {
      RowsOfAppend(s.history, e);
      LinesAppend(c, Rows(s.history), e.row);
      assert line[..landed] == line;
    } else {
      PartialLineBreaks(c, Rows(s.history), e.row, landed);
    }
  }

  /** What the file reads as is what the state says. */
  lemma {:induction false} ReadRefines(c: Codec<Row>, file: bytes, s: State)
    requires GoodCodec(c) && Holds(c, file, s)
    ensures ReadIntentLog(c, file) == if s.broken then Err(Torn) else Ok(Rows(s.history))
  {
    hide Broken, GoodCodec, Rows, Lines, ReadIntentLog;
    if s.broken {
      BrokenIsRefused(c, file);
    } else {
      ReadComplete(c, Rows(s.history));
    }
  }

  /** A send is an event of the run but not a row of the file. */
  lemma {:induction false} SendKeepsFile(c: Codec<Row>, file: bytes, s: State, s': State)
    requires Holds(c, file, s) && s'.broken == s.broken && Rows(s'.history) == Rows(s.history)
    ensures Holds(c, file, s')
  {
  }

  /** What commitAnchorIntent concludes: the anchor and the sender are checked before the log is read. */
  function CommitConclusion(sha: Sha, s: State, anchor: AnchorInput, from: bytes): Result<CommitPlan, AnchorError> {
    match NormalizeAnchor(sha, anchor)
    case Err(e) => Err(e)
    case Ok(_) =>
      if |from| != 20 then Err(BadAnchor)
      else if s.broken then Err(LogUnreadable)
      else DecideCommit(sha, Rows(s.history), anchor, from)
  }

  /**
   * A log that reads does not change what is concluded from its rows. Of one that does not,
   * only an acceptable anchor and sender learn: what is refused is refused as on an empty log.
   */
  lemma {:induction false} CommitConcludes(sha: Sha, s: State, anchor: AnchorInput, from: bytes)
    ensures !s.broken ==> CommitConclusion(sha, s, anchor, from) == DecideCommit(sha, Rows(s.history), anchor, from)
    ensures s.broken ==>
              CommitConclusion(sha, s, anchor, from)
              == if Acceptable(sha, anchor) && |from| == 20 then Err(LogUnreadable)
                 else DecideCommit(sha, [], anchor, from)
  {
    hide NormalizeAnchor, Acceptable, Rows;
    NormalizeExactly(sha, anchor);
  }

  /** commitAnchorIntent. On success the returned intent row is on the log. */
  method CommitAnchorIntent(
    log: Log<Row>, sha: Sha, anchor: AnchorInput, from: bytes, replies: seq<Reply>, synced: bool, ghost s: State)
    returns (r: Result<Row, AnchorError>, ghost outcome: Outcome)
    requires GoodCodec(log.codec) && Holds(log.codec, log.file, s)
    modifies log`file
    ensures Holds(log.codec, log.file, Next(sha, s, Commit(anchor, from, outcome)))
    ensures match CommitConclusion(sha, s, anchor, from)
            case Err(e) => r == Err(e) && log.file == old(log.file) && outcome == NotLanded
            case Ok(AlreadyCommitted(row)) => r == Ok(row) && log.file == old(log.file) && outcome == NotLanded
            case Ok(NewIntent(row)) =>
              var (status, landed) := WriteResult(|Line(log.codec, row)|, replies);
              && log.file == old(log.file) + Line(log.codec, row)[..landed]
              && outcome == OutcomeOf(landed, |Line(log.codec, row)|)
              && r == if status == Written && synced then Ok(row) else Err(AppendFailed)
    ensures r.Ok? ==> var after := Next(sha, s, Commit(anchor, from, outcome));
                      !after.broken && r.value in Rows(after.history) && r.value.status == Intent
  {
    hide Broken, GoodCodec, Rows, Lines, Line, WriteResult, Holds, ReadIntentLog, NormalizeAnchor, DecideCommit;
    outcome := NotLanded;
    SameFile(log.codec, log.file, s, Next(sha, s, Commit(anchor, from, NotLanded)));
    var body := NormalizeAnchor(sha, anchor);
    if body.Err? {
      return Err(body.error), NotLanded;
    }
    if |from| != 20 {
      return Err(BadAnchor), NotLanded;
    }
    ReadRefines(log.codec, log.file, s);
    BrokenFlag(log.codec, log.file, s);
    var read := log.Read();
    if read.Err? {
      return Err(LogUnreadable), NotLanded;
    }
    var plan := DecideCommit(sha, read.value, anchor, from);
    if plan.Err? {
      return Err(plan.error), NotLanded;
    }
    PlannedIntent(sha, read.value, anchor, from);
    if plan.value.AlreadyCommitted? {
      return Ok(plan.value.row), NotLanded;
    }
    var row := plan.value.row;
    ghost var before := log.file;
    LineNotEmpty(log.codec, row);
    var done, landed := log.Append(row, replies, synced);
    outcome := OutcomeOf(landed, |Line(log.codec, row)|);
    AppendRefines(log.codec, before, s, Event(Committed, row), landed);
    RowsOfAppend(s.history, Event(Committed, row));
    if done.Err? {
      return Err(AppendFailed), outcome;
    }
    return Ok(row), outcome;
  }

  /** The row a commit returns is an intent, and one that was found is on the log. */
  lemma {:induction false} PlannedIntent(sha: Sha, rows: seq<Row>, anchor: AnchorInput, from: bytes)
    requires DecideCommit(sha, rows, anchor, from).Ok?
    ensures var plan := DecideCommit(sha, rows, anchor, from).value;
            plan.row.status == Intent && (plan.AlreadyCommitted? ==> plan.row in rows)
  {
    hide NormalizeAnchor;
  }

  lemma {:induction false} LineNotEmpty(c: Codec<Row>, row: Row)
    ensures |Line(c, row)| > 0
  {
  }

  lemma {:induction false} BrokenFlag(c: Codec<Row>, file: bytes, s: State)
    requires GoodCodec(c) && Holds(c, file, s)
    ensures ReadIntentLog(c, file).Err? <==> s.broken
  {
    ReadRefines(c, file, s);
  }

  /** signCommittedAnchor up to its await. */
  method SignBegin(log: Log<Row>, signer: Signer, nonce: int, fees: RawFees, ghost s: State)
    returns (plan: Result<SignPlan, AnchorError>)
    requires GoodCodec(log.codec) && Holds(log.codec, log.file, s)
    ensures plan == if s.broken then Err(LogUnreadable) else DecideSign(Rows(s.history), signer, nonce, fees)
  {
    hide Broken, GoodCodec, Rows, Lines, Holds, ReadIntentLog, DecideSign;
    ReadRefines(log.codec, log.file, s);
    var read := log.Read();
    if read.Err? {
      return Err(LogUnreadable);
    }
    return DecideSign(read.value, signer, nonce, fees);
  }

  /** signCommittedAnchor after its await, with whatever the signer answered. */
  method SignEnd(
    log: Log<Row>, sha: Sha, id: nat, intent: Row, quote: Fees, raw: Option<bytes>,
    replies: seq<Reply>, synced: bool, ghost s: State)
    returns (r: Result<Row, AnchorError>, ghost outcome: Outcome)
    requires GoodCodec(log.codec) && Holds(log.codec, log.file, s)
    requires id in s.pending && s.pending[id].Signing?
    requires s.pending[id].intent == intent && s.pending[id].quote == quote
    modifies log`file
    ensures Holds(log.codec, log.file, Next(sha, s, SignFinish(id, raw, outcome)))
    ensures raw.None? ==> r == Err(AwaitFailed) && log.file == old(log.file) && outcome == NotLanded
    ensures raw.Some? && !MatchesIntent(raw.value, intent.body) ==>
              r == Err(PayloadMismatch) && log.file == old(log.file) && outcome == NotLanded
    ensures raw.Some? && MatchesIntent(raw.value, intent.body) ==>
              var row := Row(Signed, intent.body, intent.from, Some(quote), raw, None);
              var (status, landed) := WriteResult(|Line(log.codec, row)|, replies);
              && log.file == old(log.file) + Line(log.codec, row)[..landed]
              && outcome == OutcomeOf(landed, |Line(log.codec, row)|)
              && r == if status == Written && synced then Ok(row) else Err(AppendFailed)
  {
    hide Broken, GoodCodec, Rows, Lines, Line, WriteResult, MatchesIntent;
    outcome := NotLanded;
    SendKeepsFile(log.codec, log.file, s, Forget(s, id));
    if raw.None? {
      return Err(AwaitFailed), NotLanded;
    }
    if !MatchesIntent(raw.value, intent.body) {
      return Err(PayloadMismatch), NotLanded;
    }
    var row := SignedRow(intent, quote, raw.value);
    ghost var before := log.file;
    var done, landed := log.Append(row, replies, synced);
    outcome := OutcomeOf(landed, |Line(log.codec, row)|);
    AppendRefines(log.codec, before, Forget(s, id), Event(SignedBy(s.pending[id].signer), row), landed);
    if done.Err? {
      return Err(AppendFailed), outcome;
    }
    return Ok(row), outcome;
  }

  /** What broadcastCommittedAnchor concludes: the fees are checked before the log is read. */
  function SendConclusion(s: State, nonce: int, fees: RawFees): Result<Row, AnchorError> {
    match NormalizeFees(fees)
    case Err(e) => Err(e)
    case Ok(_) => if s.broken then Err(LogUnreadable) else DecideSend(Rows(s.history), nonce, fees)
  }

  lemma {:induction false} SendConcludes(s: State, nonce: int, fees: RawFees)
    ensures !s.broken ==> SendConclusion(s, nonce, fees) == DecideSend(Rows(s.history), nonce, fees)
    ensures s.broken ==> SendConclusion(s, nonce, fees) == Err(if GoodFees(fees) then LogUnreadable else BadFees)
  {
    hide Rows;
    QuoteExactly(fees, None);
  }

  /** broadcastCommittedAnchor up to its await: the wire value is handed to send. */
  method SendBegin(log: Log<Row>, sha: Sha, id: nat, nonce: int, fees: RawFees, ghost s: State)
    returns (r: Result<(Row, bytes), AnchorError>)
    requires GoodCodec(log.codec) && Holds(log.codec, log.file, s) && id !in s.pending
    ensures Holds(log.codec, log.file, Next(sha, s, SendStart(id, nonce, fees)))
    ensures match SendConclusion(s, nonce, fees)
            case Err(e) => r == Err(e)
            case Ok(row) => row.raw.Some? && r == Ok((row, row.raw.value))
    ensures r.Ok? ==> var after := Next(sha, s, SendStart(id, nonce, fees));
                      && after.history == s.history + [Event(Sent, r.value.0)]
                      && r.value.0.raw == Some(r.value.1)
                      && id in after.pending && after.pending[id] == Sending(r.value.0)
    ensures r.Err? ==> Next(sha, s, SendStart(id, nonce, fees)) == s
  {
    hide Broken, GoodCodec, Rows, Lines, ReadIntentLog, Holds, DecideSend;
    BadFeesRefused(Rows(s.history), nonce, fees);
    var quote := NormalizeFees(fees);
    if quote.Err? {
      return Err(quote.error);
    }
    ReadRefines(log.codec, log.file, s);
    var read := log.Read();
    if read.Err? {
      return Err(LogUnreadable);
    }
    var chosen := DecideSend(read.value, nonce, fees);
    if chosen.Err? {
      return Err(chosen.error);
    }
    RowsOfAppend(s.history, Event(Sent, chosen.value));
    assert Rows(s.history) + [] == Rows(s.history);
    SendKeepsFile(log.codec, log.file, s, Next(sha, s, SendStart(id, nonce, fees)));
    return Ok((chosen.value, chosen.value.raw.value));
  }

  lemma {:induction false} BadFeesRefused(rows: seq<Row>, nonce: int, fees: RawFees)
    ensures NormalizeFees(fees).Err? ==> DecideSend(rows, nonce, fees) == Err(NormalizeFees(fees).error)
    ensures DecideSend(rows, nonce, fees).Ok? ==> DecideSend(rows, nonce, fees).value.raw.Some?
  {
    hide NormalizeFees;
  }

  /** broadcastCommittedAnchor after its await. */
  method SendEnd(
    log: Log<Row>, sha: Sha, id: nat, signed: Row, tx: Option<bytes>, replies: seq<Reply>, synced: bool, ghost s: State)
    returns (r: Result<Row, AnchorError>, ghost outcome: Outcome)
    requires GoodCodec(log.codec) && Holds(log.codec, log.file, s)
    requires id in s.pending && s.pending[id] == Sending(signed)
    modifies log`file
    ensures Holds(log.codec, log.file, Next(sha, s, SendFinish(id, tx, outcome)))
    ensures tx.None? ==> r == Err(AwaitFailed) && log.file == old(log.file) && outcome == NotLanded
    ensures tx.Some? ==>
              var row := Row(Broadcast, signed.body, signed.from, signed.fees, signed.raw, tx);
              var (status, landed) := WriteResult(|Line(log.codec, row)|, replies);
              && log.file == old(log.file) + Line(log.codec, row)[..landed]
              && outcome == OutcomeOf(landed, |Line(log.codec, row)|)
              && r == if status == Written && synced then Ok(row) else Err(AppendFailed)
  {
    hide Broken, GoodCodec, Rows, Lines, Line, WriteResult;
    outcome := NotLanded;
    SendKeepsFile(log.codec, log.file, s, Forget(s, id));
    if tx.None? {
      return Err(AwaitFailed), NotLanded;
    }
    var row := BroadcastRow(signed, tx.value);
    ghost var before := log.file;
    var done, landed := log.Append(row, replies, synced);
    outcome := OutcomeOf(landed, |Line(log.codec, row)|);
    AppendRefines(log.codec, before, Forget(s, id), Event(Noted, row), landed);
    if done.Err? {
      return Err(AppendFailed), outcome;
    }
    return Ok(row), outcome;
  }

  // ---- a whole session -----------------------------------------------------

  /** A call of one of the operations, or the answer that one of them awaits. */
  datatype Call =
    | CommitCall(anchor: AnchorInput, from: bytes, replies: seq<Reply>, synced: bool)
    | SignCall(id: nat, signer: Signer, nonce: int, fees: RawFees)
    | SignAnswer(id: nat, raw: Option<bytes>, replies: seq<Reply>, synced: bool)
    | SendCall(id: nat, nonce: int, fees: RawFees)
    | SendAnswer(id: nat, tx: Option<bytes>, replies: seq<Reply>, synced: bool)

  lemma {:induction false} FreshHoldsInit(c: Codec<Row>)
    ensures Holds(c, [], Init)
  {
  }

  /** Whatever the file holds, if it reads at all its rows agree and stand in order. */
  lemma {:induction false} ReadIsSound(c: Codec<Row>, file: bytes, sha: Sha, actions: seq<Action>)
    requires GoodCodec(c) && Holds(c, file, Run(sha, actions))
    ensures ReadIntentLog(c, file).Ok? ==>
              var rows := ReadIntentLog(c, file).value;
              RowsAgree(sha, rows) && forall i :: 0 <= i < |rows| ==> RowInOrder(rows, i)
  {
    hide Broken, GoodCodec, Rows, Lines, Holds, ReadIntentLog, Run, RowsAgree, RowInOrder;
    ReadRefines(c, file, Run(sha, actions));
    RowsOfRun(sha, actions);
  }

  /**
   * A session on a new log: calls and answers in any order, suspended operations waiting
   * meanwhile, writes failing anywhere. The file holds the run they make, and what is
   * read from it at the end is sound.
   */
  method Session(log: Log<Row>, sha: Sha, calls: seq<Call>)
    returns (r: Result<seq<Row>, LogError>, ghost actions: seq<Action>)
    requires GoodCodec(log.codec) && log.file == []
    modifies log`file
    ensures Holds(log.codec, log.file, Run(sha, actions))
    ensures r == ReadIntentLog(log.codec, log.file)
    ensures r.Ok? ==> RowsAgree(sha, r.value) && forall i :: 0 <= i < |r.value| ==> RowInOrder(r.value, i)
  {
    hide Broken, GoodCodec, Rows, Lines, Holds, ReadIntentLog, Run, RowsAgree, RowInOrder, DecideSign, DecideSend,
         DecideCommit, MatchesIntent;
    var pending: map<nat, Pending> := map[];
    actions := [];
    FreshHoldsInit(log.codec);
    RunOfNothing(sha);
    for i := 0 to |calls|
      invariant Holds(log.codec, log.file, Run(sha, actions))
      invariant pending == Run(sha, actions).pending
    {
      ghost var action: Action;
      pending, action := Serve(log, sha, calls[i], pending, Run(sha, actions));
      RunOfAppend(sha, actions, action);
      actions := actions + [action];
    }
    r := log.Read();
    ReadIsSound(log.codec, log.file, sha, actions);
  }

  lemma {:induction false} RunOfNothing(sha: Sha)
    ensures Run(sha, []) == Init
  {
  }

  /** What each step leaves waiting. */
  lemma {:induction false} WaitingAfter(sha: Sha, s: State, a: Action)
    ensures var after := Next(sha, s, a);
            match a
            case Commit(_, _, _) => after.pending == s.pending
            case SignStart(id, signer, nonce, fees) =>
              var plan := DecideSign(Rows(s.history), signer, nonce, fees);
              if s.broken || id in s.pending || plan.Err? || !plan.value.Request? then after == s
              else after == s.(pending := s.pending[id := Signing(signer, plan.value.intent, plan.value.quote)])
            case SignFinish(id, _, _) =>
              if id in s.pending && s.pending[id].Signing? then after.pending == s.pending - {id} else after == s
            case SendStart(id, nonce, fees) =>
              var signed := DecideSend(Rows(s.history), nonce, fees);
              if s.broken || id in s.pending || signed.Err? then after == s
              else after.pending == s.pending[id := Sending(signed.value)]
            case SendFinish(id, _, _) =>
              if id in s.pending && s.pending[id].Sending? then after.pending == s.pending - {id} else after == s
  {
    hide Rows, DecideSign, DecideSend, DecideCommit, MatchesIntent;
  }

  /** One call or answer. An id that is already waiting, or an answer nobody awaits, does nothing. */
  method Serve(log: Log<Row>, sha: Sha, call: Call, pending: map<nat, Pending>, ghost s: State)
    returns (pending': map<nat, Pending>, ghost action: Action)
    requires GoodCodec(log.codec) && Holds(log.codec, log.file, s) && pending == s.pending
    modifies log`file
    ensures Holds(log.codec, log.file, Next(sha, s, action)) && pending' == Next(sha, s, action).pending
  {
    hide Broken, GoodCodec, Rows, Lines, Holds, DecideSign, DecideSend, DecideCommit, MatchesIntent, Next,
         CommitConclusion, NormalizeFees;
    pending' := pending;
    match call
    case CommitCall(anchor, from, replies, synced) =>
      var row, outcome := CommitAnchorIntent(log, sha, anchor, from, replies, synced, s);
      action := Commit(anchor, from, outcome);
      WaitingAfter(sha, s, action);
    case SignCall(id, signer, nonce, fees) =>
      action := SignStart(id, signer, nonce, fees);
      WaitingAfter(sha, s, action);
      SameFile(log.codec, log.file, s, Next(sha, s, action));
      if id !in pending {
        var plan := SignBegin(log, signer, nonce, fees, s);
        if plan.Ok? && plan.value.Request? {
          pending' := pending[id := Signing(signer, plan.value.intent, plan.value.quote)];
        }
      }
    case SignAnswer(id, raw, replies, synced) =>
      action := SignFinish(id, raw, NotLanded);
      WaitingAfter(sha, s, action);
      if id in pending && pending[id].Signing? {
        var row, outcome := SignEnd(log, sha, id, pending[id].intent, pending[id].quote, raw, replies, synced, s);
        action := SignFinish(id, raw, outcome);
        WaitingAfter(sha, s, action);
        pending' := pending - {id};
      }
    case SendCall(id, nonce, fees) =>
      action := SendStart(id, nonce, fees);
      WaitingAfter(sha, s, action);
      if id !in pending {
        var sent := SendBegin(log, sha, id, nonce, fees, s);
        if sent.Ok? {
          pending' := pending[id := Sending(sent.value.0)];
        }
      }
    case SendAnswer(id, tx, replies, synced) =>
      action := SendFinish(id, tx, NotLanded);
      WaitingAfter(sha, s, action);
      if id in pending && pending[id].Sending? {
        var row, outcome := SendEnd(log, sha, id, pending[id].signed, tx, replies, synced, s);
        action := SendFinish(id, tx, outcome);
        WaitingAfter(sha, s, action);
        pending' := pending - {id};
      }
  }

  lemma {:induction false} SameFile(c: Codec<Row>, file: bytes, s: State, s': State)
    requires Holds(c, file, s) && s'.broken == s.broken && s'.history == s.history
    ensures Holds(c, file, s')
  {
  }
}
