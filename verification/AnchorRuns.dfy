/**
 * Every interleaving of commit, sign, broadcast and fee bump over one log
 * (services/chit-sealer/kms-secp256k1.js). An operation with an await is two
 * steps, and any other steps may run between them; broadcastAnchor and
 * bumpAnchorFees are particular interleavings of these steps.
 */
module AnchorRuns {
  import opened Bytes
  import opened MerkleTree
  import opened Eip1559
  import opened Anchor
  import opened AnchorOutcomes

  // ---- states and steps ----------------------------------------------------

  datatype Kind = Committed | SignedBy(signer: Signer) | Sent | Noted

  /** Something durable or visible that happened, with the row it is about. */
  datatype Event = Event(kind: Kind, row: Row)

  /** An operation suspended in its await. */
  datatype Pending = Signing(signer: Signer, intent: Row, quote: Fees) | Sending(signed: Row)

  /** A log that was torn cannot be read again. */
  datatype State = State(broken: bool, history: seq<Event>, pending: map<nat, Pending>)

  /** What became of an append: nothing, the whole line, or a part of it. */
  datatype Outcome = NotLanded | Landed | TornLine

  datatype Action =
    | Commit(anchor: AnchorInput, from: bytes, outcome: Outcome)
    | SignStart(id: nat, signer: Signer, nonce: int, fees: RawFees)
    | SignFinish(id: nat, raw: Option<bytes>, outcome: Outcome)
    | SendStart(id: nat, nonce: int, fees: RawFees)
    | SendFinish(id: nat, tx: Option<bytes>, outcome: Outcome)

  const Init := State(false, [], map[])

  /** The rows on the log, in order. */
  function Rows(h: seq<Event>): seq<Row> {
    if h == [] then []
    else
      var last := h[|h| - 1];
      Rows(h[..|h| - 1]) + (if last.kind == Sent then [] else [last.row])
  }

  function Append(s: State, e: Event, outcome: Outcome): State {
    if s.broken then s
    else match outcome
      case NotLanded => s
      case Landed => s.(history := s.history + [e])
      case TornLine => s.(broken := true)
  }

  function Forget(s: State, id: nat): State { s.(pending := s.pending - {id}) }

  function Next(sha: Sha, s: State, a: Action): State {
    match a
    case Commit(anchor, from, outcome) =>
      if s.broken then s
      else (
        match DecideCommit(sha, Rows(s.history), anchor, from)
        case Ok(NewIntent(row)) => Append(s, Event(Committed, row), outcome)
        case _ => s)
    case SignStart(id, signer, nonce, fees) =>
      if s.broken || id in s.pending then s
      else (
        match DecideSign(Rows(s.history), signer, nonce, fees)
        case Ok(Request(intent, quote)) => s.(pending := s.pending[id := Signing(signer, intent, quote)])
        case _ => s)
    case SignFinish(id, raw, outcome) =>
      if id !in s.pending || !s.pending[id].Signing? then s
      else
        var p := s.pending[id];
        if raw.None? || !MatchesIntent(raw.value, p.intent.body) then Forget(s, id)
        else Append(Forget(s, id), Event(SignedBy(p.signer), SignedRow(p.intent, p.quote, raw.value)), outcome)
    case SendStart(id, nonce, fees) =>
      if s.broken || id in s.pending then s
      else (
        match DecideSend(Rows(s.history), nonce, fees)
        case Ok(signed) =>
          s.(history := s.history + [Event(Sent, signed)], pending := s.pending[id := Sending(signed)])
        case Err(_) => s)
    case SendFinish(id, tx, outcome) =>
      if id !in s.pending || !s.pending[id].Sending? then s
      else if tx.None? then Forget(s, id)
      else Append(Forget(s, id), Event(Noted, BroadcastRow(s.pending[id].signed, tx.value)), outcome)
  }

  function Run(sha: Sha, actions: seq<Action>): State {
    if actions == [] then Init
    else Next(sha, Run(sha, actions[..|actions| - 1]), actions[|actions| - 1])
  }

  // ---- the invariant -------------------------------------------------------

  predicate SameIntent(a: Row, b: Row) { a.body == b.body && a.from == b.from }

  predicate IsCommit(e: Event, row: Row) { e.kind == Committed && SameIntent(e.row, row) }

  predicate IsSigning(e: Event, row: Row) {
    e.kind.SignedBy? && SameIntent(e.row, row) && e.row.raw == row.raw && e.row.fees == row.fees
  }

  predicate IsSend(e: Event, row: Row) {
    e.kind == Sent && SameIntent(e.row, row) && e.row.raw == row.raw && e.row.fees == row.fees
  }

  ghost predicate CommittedBefore(h: seq<Event>, j: nat, row: Row)
    requires j <= |h|
  {
    exists i :: 0 <= i < j && IsCommit(h[i], row)
  }

  ghost predicate SignedBefore(h: seq<Event>, j: nat, row: Row)
    requires j <= |h|
  {
    exists i :: 0 <= i < j && IsSigning(h[i], row)
  }

  ghost predicate SentBefore(h: seq<Event>, j: nat, row: Row)
    requires j <= |h|
  {
    exists i :: 0 <= i < j && IsSend(h[i], row)
  }

  /** Write-ahead order for the event at j. */
  ghost predicate WriteAhead(h: seq<Event>, j: nat)
    requires j < |h|
  {
    var row := h[j].row;
    match h[j].kind
    case Committed => row.status == Intent && row.raw == None
    case SignedBy(signer) =>
      && row.status == Signed && row.raw.Some? && row.fees.Some?
      && signer.address == row.from && WithinCeiling(row.fees.value, signer.ceiling)
      && MatchesIntent(row.raw.value, row.body)
      && CommittedBefore(h, j, row)
    case Sent => row.raw.Some? && row.fees.Some? && SignedBefore(h, j, row)
    case Noted => row.status == Broadcast && SignedBefore(h, j, row) && SentBefore(h, j, row)
  }

  /** One nonce, one anchor and sender; one epoch, one nonce. */
  predicate Compatible(a: Row, b: Row) {
    && (a.body.nonce == b.body.nonce ==> a.body.fingerprint == b.body.fingerprint && a.from == b.from)
    && (SameEpoch(a.body, b.body) ==> a.body.nonce == b.body.nonce)
  }

  ghost predicate GoodHistory(sha: Sha, h: seq<Event>) {
    && (forall j :: 0 <= j < |h| ==> Normal(sha, h[j].row.body))
    && (forall j :: 0 <= j < |h| ==> WriteAhead(h, j))
    && (forall i, j :: 0 <= i < |h| && 0 <= j < |h| ==> Compatible(h[i].row, h[j].row))
  }

  ghost predicate GoodPending(h: seq<Event>, p: Pending) {
    match p
    case Signing(signer, intent, quote) =>
      signer.address == intent.from && WithinCeiling(quote, signer.ceiling) && CommittedBefore(h, |h|, intent)
    case Sending(signed) => SentBefore(h, |h|, signed)
  }

  ghost predicate Inv(sha: Sha, s: State) {
    && GoodHistory(sha, s.history)
    && (forall id :: id in s.pending ==> GoodPending(s.history, s.pending[id]))
  }

  // ---- rows and events -----------------------------------------------------

  lemma {:induction false} RowsAreEvents(h: seq<Event>, row: Row)
    requires row in Rows(h)
    ensures exists i :: 0 <= i < |h| && h[i].kind != Sent && h[i].row == row
  {
    var last := |h| - 1;
    if h[last].kind == Sent || row != h[last].row {
      RowsAreEvents(h[..last], row);
      var i :| 0 <= i < last && h[..last][i].kind != Sent && h[..last][i].row == row;
      assert h[i].kind != Sent && h[i].row == row;
    }
  }

  lemma {:induction false} EventsAreRows(h: seq<Event>, i: nat)
    requires i < |h| && h[i].kind != Sent
    ensures h[i].row in Rows(h)
  {
    if i < |h| - 1 {
      EventsAreRows(h[..|h| - 1], i);
      assert h[..|h| - 1][i] == h[i];
    }
  }

  // ---- preservation --------------------------------------------------------

  /** Extending the history moves no earlier event. */
  lemma {:induction false} BeforeExtends(h: seq<Event>, e: Event, j: nat, row: Row)
    requires j <= |h|
    ensures CommittedBefore(h, j, row) ==> CommittedBefore(h + [e], j, row)
    ensures SignedBefore(h, j, row) ==> SignedBefore(h + [e], j, row)
    ensures SentBefore(h, j, row) ==> SentBefore(h + [e], j, row)
  {
    assert forall i :: 0 <= i < j ==> (h + [e])[i] == h[i];
  }

  lemma {:induction false} WriteAheadExtends(h: seq<Event>, e: Event, j: nat)
    requires j < |h| && WriteAhead(h, j)
    ensures WriteAhead(h + [e], j)
  {
    BeforeExtends(h, e, j, h[j].row);
  }

  lemma {:induction false} PendingExtends(h: seq<Event>, e: Event, p: Pending)
    requires GoodPending(h, p)
    ensures GoodPending(h + [e], p)
  {
    var h' := h + [e];
    assert forall i :: 0 <= i < |h| ==> h'[i] == h[i];
    match p
    case Signing(_, intent, _) =>
      var i :| 0 <= i < |h| && IsCommit(h[i], intent);
      assert IsCommit(h'[i], intent);
    case Sending(signed) =>
      var i :| 0 <= i < |h| && IsSend(h[i], signed);
      assert IsSend(h'[i], signed);
  }

  /** A new event keeps the history good if it is in order and compatible with the rest. */
  lemma {:induction false} HistoryExtends(sha: Sha, h: seq<Event>, e: Event)
    requires GoodHistory(sha, h) && Normal(sha, e.row.body) && WriteAhead(h + [e], |h|)
    requires forall i :: 0 <= i < |h| ==> Compatible(h[i].row, e.row)
    ensures GoodHistory(sha, h + [e])
  {
    hide WriteAhead, Normal;
    var h' := h + [e];
    forall j | 0 <= j < |h'| ensures WriteAhead(h', j) {
      if j < |h| {
        WriteAheadExtends(h, e, j);
      }
    }
    assert forall i :: 0 <= i < |h| ==> h'[i] == h[i];
    forall i, j | 0 <= i < |h'| && 0 <= j < |h'| ensures Compatible(h'[i].row, h'[j].row) {
      assert i < |h| ==> Compatible(h[i].row, e.row);
      assert j < |h| ==> Compatible(h[j].row, e.row);
    }
  }

  /** An event about an intent already in the history is compatible with all of it. */
  lemma {:induction false} SameIntentCompatible(sha: Sha, h: seq<Event>, i: nat, row: Row)
    requires GoodHistory(sha, h) && i < |h| && SameIntent(h[i].row, row)
    ensures Normal(sha, row.body)
    ensures forall j :: 0 <= j < |h| ==> Compatible(h[j].row, row)
  {
    hide WriteAhead, Normal;
    forall j | 0 <= j < |h| ensures Compatible(h[j].row, row) {
      assert Compatible(h[j].row, h[i].row);
    }
  }

  lemma {:induction false} StepAppends(sha: Sha, s: State, pending: map<nat, Pending>, e: Event, i: nat)
    requires Inv(sha, s) && i < |s.history| && SameIntent(s.history[i].row, e.row)
    requires WriteAhead(s.history + [e], |s.history|)
    requires forall id :: id in pending ==> GoodPending(s.history + [e], pending[id])
    ensures Inv(sha, State(s.broken, s.history + [e], pending))
  {
    hide WriteAhead, Normal, GoodHistory, GoodPending;
    SameIntentCompatible(sha, s.history, i, e.row);
    HistoryExtends(sha, s.history, e);
  }

  /** A row on the log passes for its whole history when a new anchor is committed. */
  lemma {:induction false} NewIntentCompatible(sha: Sha, h: seq<Event>, anchor: AnchorInput, from: bytes, i: nat)
    requires GoodHistory(sha, h) && i < |h|
    requires DecideCommit(sha, Rows(h), anchor, from).Ok?
    requires DecideCommit(sha, Rows(h), anchor, from).value.NewIntent?
    ensures Compatible(h[i].row, DecideCommit(sha, Rows(h), anchor, from).value.row)
  {
    hide Normal, NormalizeAnchor;
    assert WriteAhead(h, i);
    if h[i].kind == Sent {
      var k :| 0 <= k < i && IsSigning(h[k], h[i].row);
      EventsAreRows(h, k);
    } else {
      EventsAreRows(h, i);
    }
  }

  lemma {:induction false} CommitKeeps(sha: Sha, s: State, a: Action)
    requires Inv(sha, s) && a.Commit?
    ensures Inv(sha, Next(sha, s, a))
  {
    hide GoodHistory, GoodPending, Normal, NormalizeAnchor;
    var h := s.history;
    var plan := DecideCommit(sha, Rows(h), a.anchor, a.from);
    if !s.broken && plan.Ok? && plan.value.NewIntent? && a.outcome == Landed {
      var e := Event(Committed, plan.value.row);
      NormalizedIsNormal(sha, a.anchor);
      forall i | 0 <= i < |h| ensures Compatible(h[i].row, e.row) {
        NewIntentCompatible(sha, h, a.anchor, a.from, i);
      }
      HistoryExtends(sha, h, e);
      forall id | id in s.pending ensures GoodPending(h + [e], s.pending[id]) {
        PendingExtends(h, e, s.pending[id]);
      }
    }
  }

  /** What a good history says of one event. */
  lemma {:induction false} GoodAt(sha: Sha, h: seq<Event>, j: nat)
    requires GoodHistory(sha, h) && j < |h|
    ensures Normal(sha, h[j].row.body) && WriteAhead(h, j)
  {
    hide Normal, WriteAhead;
  }

  /** The intent that the signer is asked about was committed, by this signer's address. */
  lemma {:induction false} AskedInOrder(sha: Sha, h: seq<Event>, signer: Signer, nonce: int, fees: RawFees)
    requires GoodHistory(sha, h)
    requires DecideSign(Rows(h), signer, nonce, fees).Ok? && DecideSign(Rows(h), signer, nonce, fees).value.Request?
    ensures var plan := DecideSign(Rows(h), signer, nonce, fees).value;
            GoodPending(h, Signing(signer, plan.intent, plan.quote))
  {
    hide Normal, GoodHistory, Rows, NormalizeFees;
    var intent := DecideSign(Rows(h), signer, nonce, fees).value.intent;
    RowsAreEvents(h, intent);
    var i :| 0 <= i < |h| && h[i].kind != Sent && h[i].row == intent;
    GoodAt(sha, h, i);
    assert IsCommit(h[i], intent);
  }

  lemma {:induction false} SignStartKeeps(sha: Sha, s: State, a: Action)
    requires Inv(sha, s) && a.SignStart?
    ensures Inv(sha, Next(sha, s, a))
  {
    hide Normal, GoodHistory, GoodPending, Rows, DecideSign;
    var h := s.history;
    var plan := DecideSign(Rows(h), a.signer, a.nonce, a.fees);
    if !s.broken && a.id !in s.pending && plan.Ok? && plan.value.Request? {
      AskedInOrder(sha, h, a.signer, a.nonce, a.fees);
    }
  }

  /** A signature for a suspended request is in order. */
  lemma {:induction false} SignedInOrder(h: seq<Event>, p: Pending, raw: bytes) returns (i: nat)
    requires p.Signing? && GoodPending(h, p) && MatchesIntent(raw, p.intent.body)
    ensures i < |h| && SameIntent(h[i].row, SignedRow(p.intent, p.quote, raw))
    ensures WriteAhead(h + [Event(SignedBy(p.signer), SignedRow(p.intent, p.quote, raw))], |h|)
  {
    hide MatchesIntent;
    var e := Event(SignedBy(p.signer), SignedRow(p.intent, p.quote, raw));
    i :| 0 <= i < |h| && IsCommit(h[i], p.intent);
    assert IsCommit((h + [e])[i], e.row);
  }

  lemma {:induction false} SignFinishKeeps(sha: Sha, s: State, a: Action)
    requires Inv(sha, s) && a.SignFinish?
    ensures Inv(sha, Next(sha, s, a))
  {
    hide Normal, GoodHistory, GoodPending, WriteAhead, MatchesIntent;
    if a.id in s.pending && s.pending[a.id].Signing? {
      var (h, p) := (s.history, s.pending[a.id]);
      if a.raw.Some? && MatchesIntent(a.raw.value, p.intent.body) {
        var e := Event(SignedBy(p.signer), SignedRow(p.intent, p.quote, a.raw.value));
        var i := SignedInOrder(h, p, a.raw.value);
        PendingAfter(h, e, s.pending, a.id);
        StepAppends(sha, s, Forget(s, a.id).pending, e, i);
      }
    }
  }

  lemma {:induction false} PendingAfter(h: seq<Event>, e: Event, pending: map<nat, Pending>, gone: nat)
    requires forall id :: id in pending ==> GoodPending(h, pending[id])
    ensures forall id :: id in pending - {gone} ==> GoodPending(h + [e], (pending - {gone})[id])
  {
    hide GoodPending;
    forall id | id in pending - {gone} ensures GoodPending(h + [e], (pending - {gone})[id]) {
      PendingExtends(h, e, pending[id]);
    }
  }

  /** The row chosen for broadcast was signed before, whatever its own status. */
  lemma {:induction false} ChosenWasSigned(sha: Sha, h: seq<Event>, nonce: int, fees: RawFees) returns (k: nat)
    requires GoodHistory(sha, h) && DecideSend(Rows(h), nonce, fees).Ok?
    ensures var row := DecideSend(Rows(h), nonce, fees).value;
            row.raw.Some? && row.fees.Some? && k < |h| && IsSigning(h[k], row)
  {
    hide Normal, GoodHistory, Rows, NormalizeFees;
    var row := DecideSend(Rows(h), nonce, fees).value;
    RowsAreEvents(h, row);
    var i :| 0 <= i < |h| && h[i].kind != Sent && h[i].row == row;
    GoodAt(sha, h, i);
    if h[i].kind.SignedBy? {
      k := i;
    } else {
      k :| 0 <= k < i && IsSigning(h[k], row);
    }
  }

  lemma {:induction false} SendingIsGood(h: seq<Event>, e: Event)
    requires e.kind == Sent
    ensures GoodPending(h + [e], Sending(e.row))
  {
    assert IsSend((h + [e])[|h|], e.row);
  }

  lemma {:induction false} SendStartKeeps(sha: Sha, s: State, a: Action)
    requires Inv(sha, s) && a.SendStart?
    ensures Inv(sha, Next(sha, s, a))
  {
    hide Normal, GoodHistory, DecideSend, GoodPending;
    var h := s.history;
    if !s.broken && a.id !in s.pending && DecideSend(Rows(h), a.nonce, a.fees).Ok? {
      var signed := DecideSend(Rows(h), a.nonce, a.fees).value;
      var e := Event(Sent, signed);
      var k := ChosenWasSigned(sha, h, a.nonce, a.fees);
      assert IsSigning((h + [e])[k], signed);
      assert WriteAhead(h + [e], |h|);
      SendingIsGood(h, e);
      var pending := s.pending[a.id := Sending(signed)];
      forall id | id in pending ensures GoodPending(h + [e], pending[id]) {
        if id != a.id {
          PendingExtends(h, e, s.pending[id]);
        }
      }
      StepAppends(sha, s, pending, e, k);
    }
  }

  /** A broadcast row about a send in the history is in order. */
  lemma {:induction false} NotedInOrder(sha: Sha, h: seq<Event>, signed: Row, tx: bytes) returns (i: nat)
    requires GoodHistory(sha, h) && SentBefore(h, |h|, signed)
    ensures i < |h| && SameIntent(h[i].row, BroadcastRow(signed, tx))
    ensures WriteAhead(h + [Event(Noted, BroadcastRow(signed, tx))], |h|)
  {
    hide Normal, GoodHistory;
    var e := Event(Noted, BroadcastRow(signed, tx));
    i :| 0 <= i < |h| && IsSend(h[i], signed);
    GoodAt(sha, h, i);
    var k :| 0 <= k < i && IsSigning(h[k], h[i].row);
    assert IsSend((h + [e])[i], e.row) && IsSigning((h + [e])[k], e.row);
  }

  lemma {:induction false} SendWasMade(h: seq<Event>, p: Pending)
    requires p.Sending? && GoodPending(h, p)
    ensures SentBefore(h, |h|, p.signed)
  {
  }

  lemma {:induction false} SendFinishKeeps(sha: Sha, s: State, a: Action)
    requires Inv(sha, s) && a.SendFinish?
    ensures Inv(sha, Next(sha, s, a))
  {
    hide Normal, GoodHistory, WriteAhead, GoodPending;
    if a.id in s.pending && s.pending[a.id].Sending? {
      var h := s.history;
      var signed := s.pending[a.id].signed;
      assert SentBefore(h, |h|, signed) by { SendWasMade(h, s.pending[a.id]); }
      if a.tx.Some? {
        var e := Event(Noted, BroadcastRow(signed, a.tx.value));
        var i := NotedInOrder(sha, h, signed, a.tx.value);
        PendingAfter(h, e, s.pending, a.id);
        StepAppends(sha, s, Forget(s, a.id).pending, e, i);
      }
    }
  }

  lemma {:induction false} StepKeeps(sha: Sha, s: State, a: Action)
    requires Inv(sha, s)
    ensures Inv(sha, Next(sha, s, a))
  {
    hide Inv, Next;
    match a
    case Commit(_, _, _) => CommitKeeps(sha, s, a);
    case SignStart(_, _, _, _) => SignStartKeeps(sha, s, a);
    case SignFinish(_, _, _) => SignFinishKeeps(sha, s, a);
    case SendStart(_, _, _) => SendStartKeeps(sha, s, a);
    case SendFinish(_, _, _) => SendFinishKeeps(sha, s, a);
  }

  /** The invariant holds after every interleaved run. */
  lemma {:induction false} RunKeeps(sha: Sha, actions: seq<Action>)
    ensures Inv(sha, Run(sha, actions))
  {
    hide Inv, Next;
    if actions == [] {
      InitGood(sha);
    } else {
      RunKeeps(sha, actions[..|actions| - 1]);
      StepKeeps(sha, Run(sha, actions[..|actions| - 1]), actions[|actions| - 1]);
    }
  }

  lemma {:induction false} InitGood(sha: Sha)
    ensures Inv(sha, Init)
  {
  }

  // ---- what runs guarantee -------------------------------------------------

  /** No step rewrites what has happened, and a torn log stays torn. */
  lemma {:induction false} HistoryGrows(sha: Sha, s: State, a: Action)
    ensures s.history <= Next(sha, s, a).history
    ensures |Next(sha, s, a).history| <= |s.history| + 1
    ensures s.broken ==> Next(sha, s, a).broken && Next(sha, s, a).history == s.history
  {
    hide DecideCommit, DecideSign, DecideSend, MatchesIntent, Rows;
  }

  /**
   * Write-ahead order over every run: a value is handed to send only after a signed
   * row with that raw; a signed row follows an intent row with its body and is within
   * its signer's ceiling; a broadcast row repeats the raw and fees of a signed row
   * that was sent.
   */
  lemma {:induction false} WriteAheadOrder(sha: Sha, actions: seq<Action>, j: nat)
    requires j < |Run(sha, actions).history|
    ensures WriteAhead(Run(sha, actions).history, j)
  {
    hide WriteAhead, Run, Normal;
    RunKeeps(sha, actions);
  }

  /** The collision between two bodies that should be one. */
  function BodyCollision(a: Body, b: Body): (bytes, bytes) { (BodyText(a), BodyText(b)) }

  /**
   * Non-equivocation over every run: two rows or sends with one nonce carry one
   * sender and one body, or the two bodies' texts collide; and two with one
   * (chain, contract, epoch) carry one nonce.
   */
  lemma {:induction false} NonEquivocation(sha: Sha, actions: seq<Action>, i: nat, j: nat)
    requires i < |Run(sha, actions).history| && j < |Run(sha, actions).history|
    ensures var (a, b) := (Run(sha, actions).history[i].row, Run(sha, actions).history[j].row);
            && (SameEpoch(a.body, b.body) ==> a.body.nonce == b.body.nonce)
            && (a.body.nonce == b.body.nonce ==>
                  a.from == b.from && (a.body == b.body || IsCollision(sha, BodyCollision(a.body, b.body))))
  {
    hide Run, WriteAhead, Normal;
    RunKeeps(sha, actions);
    var h := Run(sha, actions).history;
    var (a, b) := (h[i].row, h[j].row);
    assert Compatible(a, b);
    assert Normal(sha, a.body) && Normal(sha, b.body);
    if a.body.nonce == b.body.nonce {
      SameFingerprint(sha, a.body, b.body);
    }
  }

  /** Two decoded transactions with the same chain, nonce, target, value and calldata. */
  predicate SameCall(x: Decoded, y: Decoded) {
    x.chainId == y.chainId && x.nonce == y.nonce && x.to == y.to && x.value == y.value == 0 && x.data == y.data
  }

  /**
   * Whatever the signer answers, any two values ever handed to send for one epoch decode
   * to the same chain, nonce, target, value and calldata, or the two bodies' texts
   * collide. The access list and the presence of a signature are not compared: see
   * Anchor.AccessListAnswerPasses and Anchor.UnsignedAnswerPasses.
   */
  lemma {:induction false} SendsAgree(sha: Sha, actions: seq<Action>, i: nat, j: nat)
    requires i < |Run(sha, actions).history| && j < |Run(sha, actions).history|
    requires Run(sha, actions).history[i].kind == Sent && Run(sha, actions).history[j].kind == Sent
    requires SameEpoch(Run(sha, actions).history[i].row.body, Run(sha, actions).history[j].row.body)
    ensures var (a, b) := (Run(sha, actions).history[i].row, Run(sha, actions).history[j].row);
            && a.raw.Some? && b.raw.Some?
            && Eip1559Decode(a.raw.value).Ok? && Eip1559Decode(b.raw.value).Ok?
            && (SameCall(Eip1559Decode(a.raw.value).value, Eip1559Decode(b.raw.value).value)
                || IsCollision(sha, BodyCollision(a.body, b.body)))
  {
    hide Run, Normal, Eip1559Decode;
    RunKeeps(sha, actions);
    var h := Run(sha, actions).history;
    SentMatches(sha, h, i);
    SentMatches(sha, h, j);
    NonEquivocation(sha, actions, i, j);
  }

  /** What is sent decodes to the row it was sent for. */
  lemma {:induction false} SentMatches(sha: Sha, h: seq<Event>, i: nat)
    requires GoodHistory(sha, h) && i < |h| && h[i].kind == Sent
    ensures h[i].row.raw.Some? && MatchesIntent(h[i].row.raw.value, h[i].row.body)
  {
    hide Normal, MatchesIntent;
    assert WriteAhead(h, i);
    var k :| 0 <= k < i && IsSigning(h[k], h[i].row);
    assert WriteAhead(h, k);
  }

  // ---- the rows of a run ---------------------------------------------------

  /** One epoch, one nonce; one nonce, one sender and body, or the bodies' texts collide. */
  ghost predicate RowsAgree(sha: Sha, rows: seq<Row>) {
    forall i, j :: 0 <= i < |rows| && 0 <= j < |rows| ==> PairAgrees(sha, rows[i], rows[j])
  }

  predicate PairAgrees(sha: Sha, a: Row, b: Row) {
    && (SameEpoch(a.body, b.body) ==> a.body.nonce == b.body.nonce)
    && (a.body.nonce == b.body.nonce ==>
          a.from == b.from && (a.body == b.body || IsCollision(sha, BodyCollision(a.body, b.body))))
  }

  /** A row's predecessor on the log: a signature's intent, a broadcast's signature. */
  predicate Precursor(before: Row, row: Row) {
    SameIntent(before, row) &&
      match row.status
      case Intent => true
      case Signed => before.status == Intent
      case Broadcast => before.status == Signed && before.raw == row.raw && before.fees == row.fees
  }

  ghost predicate RowInOrder(rows: seq<Row>, i: nat)
    requires i < |rows|
  {
    match rows[i].status
    case Intent => rows[i].raw == None
    case Signed =>
      && rows[i].raw.Some? && rows[i].fees.Some? && MatchesIntent(rows[i].raw.value, rows[i].body)
      && exists k :: 0 <= k < i && Precursor(rows[k], rows[i])
    case Broadcast => exists k :: 0 <= k < i && Precursor(rows[k], rows[i])
  }

  /** How many rows a history has put on the log before an event. */
  function Position(h: seq<Event>, e: nat): nat
    requires e <= |h|
  {
    |Rows(h[..e])|
  }

  /** An event's row stands on the log. */
  lemma {:induction false} RowOfEvent(h: seq<Event>, e: nat)
    requires e < |h| && h[e].kind != Sent
    ensures Position(h, e) < |Rows(h)| && Rows(h)[Position(h, e)] == h[e].row
    decreases |h|
  {
    var last := |h| - 1;
    if e < last {
      RowOfEvent(h[..last], e);
      assert h[..last][..e] == h[..e];
    }
  }

  /** After the rows of the events before it. */
  lemma {:induction false} PositionsGrow(h: seq<Event>, d: nat, e: nat)
    requires d < e < |h| && h[d].kind != Sent
    ensures Position(h, d) < Position(h, e)
  {
    RowOfEvent(h[..e], d);
    assert h[..e][..d] == h[..d];
  }

  lemma {:induction false} EventOfRow(h: seq<Event>, i: nat) returns (e: nat)
    requires i < |Rows(h)|
    ensures e < |h| && h[e].kind != Sent && Position(h, e) == i && h[e].row == Rows(h)[i]
    decreases |h|
  {
    var last := |h| - 1;
    if i < |Rows(h[..last])| {
      e := EventOfRow(h[..last], i);
      assert h[..last][..e] == h[..e];
    } else {
      e := last;
    }
  }

  /** The rows of every run agree and stand in order. */
  lemma {:induction false} RowsOfRun(sha: Sha, actions: seq<Action>)
    ensures var rows := Rows(Run(sha, actions).history);
            RowsAgree(sha, rows) && forall i :: 0 <= i < |rows| ==> RowInOrder(rows, i)
  {
    hide Run, Rows, Normal, WriteAhead, RowInOrder, PairAgrees;
    RunKeeps(sha, actions);
    var h := Run(sha, actions).history;
    var rows := Rows(h);
    forall i, j | 0 <= i < |rows| && 0 <= j < |rows| ensures PairAgrees(sha, rows[i], rows[j]) {
      var d := EventOfRow(h, i);
      var e := EventOfRow(h, j);
      NonEquivocation(sha, actions, d, e);
      PairOf(sha, h[d].row, h[e].row);
    }
    forall i | 0 <= i < |rows| ensures RowInOrder(rows, i) {
      var e := EventOfRow(h, i);
      InOrderAt(sha, h, e);
    }
  }

  lemma {:induction false} PairOf(sha: Sha, a: Row, b: Row)
    requires SameEpoch(a.body, b.body) ==> a.body.nonce == b.body.nonce
    requires a.body.nonce == b.body.nonce ==>
               a.from == b.from && (a.body == b.body || IsCollision(sha, BodyCollision(a.body, b.body)))
    ensures PairAgrees(sha, a, b)
  {
  }

  lemma {:induction false} InOrderAt(sha: Sha, h: seq<Event>, e: nat)
    requires GoodHistory(sha, h) && e < |h| && h[e].kind != Sent
    ensures Position(h, e) < |Rows(h)| && RowInOrder(Rows(h), Position(h, e))
  {
    hide Normal, Rows, MatchesIntent, GoodHistory;
    RowOfEvent(h, e);
    GoodAt(sha, h, e);
    var row := h[e].row;
    if h[e].kind.SignedBy? {
      var d :| 0 <= d < e && IsCommit(h[d], row);
      GoodAt(sha, h, d);
      RowOfEvent(h, d);
      PositionsGrow(h, d, e);
      assert Precursor(Rows(h)[Position(h, d)], row);
    } else if h[e].kind == Noted {
      var d :| 0 <= d < e && IsSigning(h[d], row);
      GoodAt(sha, h, d);
      RowOfEvent(h, d);
      PositionsGrow(h, d, e);
      assert Precursor(Rows(h)[Position(h, d)], row);
    }
  }

  // ---- an honest signer ----------------------------------------------------

  /** Every signature that a run finishes is the requested transaction, serialized. */
  ghost predicate HonestAnswers(sha: Sha, actions: seq<Action>) {
    forall i :: 0 <= i < |actions| ==> AnswersHonestly(Run(sha, actions[..i]), actions[i])
  }

  ghost predicate AnswersHonestly(s: State, a: Action) {
    a.SignFinish? && a.raw.Some? && a.id in s.pending && s.pending[a.id].Signing? ==>
      HonestAnswer(s.pending[a.id].intent.body, s.pending[a.id].quote, a.raw.value)
  }

  /** The row carries the serialization of its own body at its own fees. */
  ghost predicate HonestRow(row: Row) {
    row.raw.Some? && row.fees.Some? && HonestAnswer(row.body, row.fees.value, row.raw.value)
  }

  ghost predicate HonestHistory(h: seq<Event>) {
    forall j :: 0 <= j < |h| && h[j].kind.SignedBy? ==> HonestRow(h[j].row)
  }

  lemma {:induction false} HonestStep(sha: Sha, s: State, a: Action)
    requires HonestHistory(s.history) && AnswersHonestly(s, a)
    ensures HonestHistory(Next(sha, s, a).history)
  {
    hide HonestAnswer, DecideCommit, DecideSign, DecideSend, MatchesIntent, Rows;
  }

  lemma {:induction false} HonestRun(sha: Sha, actions: seq<Action>)
    requires HonestAnswers(sha, actions)
    ensures HonestHistory(Run(sha, actions).history)
  {
    hide AnswersHonestly, HonestHistory, Next;
    if actions == [] {
      assert HonestHistory([]) by { NothingDishonest(); }
    } else {
      var init := actions[..|actions| - 1];
      forall i | 0 <= i < |init| ensures AnswersHonestly(Run(sha, init[..i]), init[i]) {
        assert init[..i] == actions[..i];
      }
      HonestRun(sha, init);
      HonestStep(sha, Run(sha, init), actions[|init|]);
    }
  }

  lemma {:induction false} NothingDishonest()
    ensures HonestHistory([])
  {
  }

  /** Two transactions that differ at most in the three fee fields. */
  predicate DifferInFees(x: Tx, y: Tx) {
    x == y.(maxPriorityFeePerGas := x.maxPriorityFeePerGas, maxFeePerGas := x.maxFeePerGas, gasLimit := x.gasLimit)
  }

  /** The transaction a row's fees and body ask for. */
  function TxOfRow(row: Row): Tx
    requires row.fees.Some?
  {
    TxOfIntent(row.body, row.fees.value)
  }

  /**
   * With a signer that answers with the requested transaction, any two values ever handed
   * to send for one epoch are, byte for byte, serializations of transactions that differ
   * only in fees, each with some signature; or the two bodies' texts collide.
   */
  lemma {:induction false} SendsDifferInFees(sha: Sha, actions: seq<Action>, i: nat, j: nat)
    requires HonestAnswers(sha, actions)
    requires i < |Run(sha, actions).history| && j < |Run(sha, actions).history|
    requires Run(sha, actions).history[i].kind == Sent && Run(sha, actions).history[j].kind == Sent
    requires SameEpoch(Run(sha, actions).history[i].row.body, Run(sha, actions).history[j].row.body)
    ensures var (a, b) := (Run(sha, actions).history[i].row, Run(sha, actions).history[j].row);
            && a.raw.Some? && b.raw.Some? && a.fees.Some? && b.fees.Some?
            && (exists sig :: Serialize(TxOfRow(a), sig) == Ok(a.raw.value))
            && (exists sig :: Serialize(TxOfRow(b), sig) == Ok(b.raw.value))
            && (DifferInFees(TxOfRow(a), TxOfRow(b)) || IsCollision(sha, BodyCollision(a.body, b.body)))
  {
    hide Run, Normal, Serialize, HonestAnswers;
    RunKeeps(sha, actions);
    HonestRun(sha, actions);
    var h := Run(sha, actions).history;
    SentIsHonest(sha, h, i);
    SentIsHonest(sha, h, j);
    NonEquivocation(sha, actions, i, j);
    var (a, b) := (h[i].row, h[j].row);
    var sigA :| Serialize(TxOfIntent(a.body, a.fees.value), sigA) == Ok(a.raw.value);
    var sigB :| Serialize(TxOfIntent(b.body, b.fees.value), sigB) == Ok(b.raw.value);
    assert Serialize(TxOfRow(a), sigA) == Ok(a.raw.value) && Serialize(TxOfRow(b), sigB) == Ok(b.raw.value);
  }

  /** What is sent was signed for its own row. */
  lemma {:induction false} SentIsHonest(sha: Sha, h: seq<Event>, i: nat)
    requires GoodHistory(sha, h) && HonestHistory(h) && i < |h| && h[i].kind == Sent
    ensures HonestRow(h[i].row)
  {
    hide Normal, HonestAnswer;
    assert WriteAhead(h, i);
    var k :| 0 <= k < i && IsSigning(h[k], h[i].row);
  }

  // ---- runs get through ----------------------------------------------------

  /** The commit behind an event. */
  lemma {:induction false} CommitOf(sha: Sha, h: seq<Event>, i: nat) returns (m: nat)
    requires GoodHistory(sha, h) && i < |h|
    ensures m < |h| && h[m].kind == Committed && SameIntent(h[m].row, h[i].row)
  {
    hide Normal, GoodHistory, MatchesIntent;
    GoodAt(sha, h, i);
    if h[i].kind == Committed {
      m := i;
    } else {
      var k := i;
      if !h[i].kind.SignedBy? {
        k :| 0 <= k < i && IsSigning(h[k], h[i].row);
        GoodAt(sha, h, k);
      }
      m :| 0 <= m < k && IsCommit(h[m], h[k].row);
    }
  }

  /** Whatever a row says, the intent it is about is on the log. */
  lemma {:induction false} IntentOnLog(sha: Sha, h: seq<Event>, row: Row) returns (intent: Row)
    requires GoodHistory(sha, h) && row in Rows(h)
    ensures intent in Rows(h) && intent.status == Intent && intent.body == row.body
  {
    hide Normal, GoodHistory, Rows;
    RowsAreEvents(h, row);
    var i :| 0 <= i < |h| && h[i].kind != Sent && h[i].row == row;
    var m := CommitOf(sha, h, i);
    GoodAt(sha, h, m);
    EventsAreRows(h, m);
    intent := h[m].row;
  }

  /** Right after a new intent, the signer is asked about that very intent. */
  lemma {:induction false} FreshIntentIsSigned(
    sha: Sha, h: seq<Event>, a: AnchorInput, signer: Signer, fees: RawFees)
    requires GoodHistory(sha, h)
    requires DecideCommit(sha, Rows(h), a, signer.address).Ok?
    requires DecideCommit(sha, Rows(h), a, signer.address).value.NewIntent?
    requires NormalizeFees(fees).Ok? && WithinCeiling(NormalizeFees(fees).value, signer.ceiling)
    ensures var row := DecideCommit(sha, Rows(h), a, signer.address).value.row;
            DecideSign(Rows(h) + [row], signer, row.body.nonce, fees) == Ok(Request(row, NormalizeFees(fees).value))
  {
    hide GoodHistory, NormalizeAnchor, NormalizeFees, Rows;
    var rows, row := Rows(h), DecideCommit(sha, Rows(h), a, signer.address).value.row;
    forall r | r in rows ensures r.body.nonce != row.body.nonce {
      var intent := IntentOnLog(sha, h, r);
      assert r.body.nonce == row.body.nonce ==> intent.body.nonce == row.body.nonce && intent.status == Intent;
    }
    var more := rows + [row];
    assert forall r :: r in more <==> r in rows || r == row;
    assert row in more;
  }

  /** The five steps of broadcastAnchor, none of which fails. */
  function Broadcasts(id: nat, a: AnchorInput, signer: Signer, nonce: int, fees: RawFees, raw: bytes, tx: bytes)
    : seq<Action>
  {
    [Commit(a, signer.address, Landed), SignStart(id, signer, nonce, fees), SignFinish(id, Some(raw), Landed),
     SendStart(id, nonce, fees), SendFinish(id, Some(tx), Landed)]
  }

  /** The five steps, from a log on which the anchor is new. */
  lemma {:induction false} BroadcastSteps(
    sha: Sha, prior: seq<Action>, id: nat, a: AnchorInput, signer: Signer, fees: RawFees, raw: bytes, tx: bytes)
    requires !Run(sha, prior).broken && id !in Run(sha, prior).pending
    requires DecideCommit(sha, Rows(Run(sha, prior).history), a, signer.address).Ok?
    requires DecideCommit(sha, Rows(Run(sha, prior).history), a, signer.address).value.NewIntent?
    requires NormalizeFees(fees).Ok? && WithinCeiling(NormalizeFees(fees).value, signer.ceiling)
    requires raw != []
    requires MatchesIntent(raw, DecideCommit(sha, Rows(Run(sha, prior).history), a, signer.address).value.row.body)
    ensures var s := Run(sha, prior);
            var row := DecideCommit(sha, Rows(s.history), a, signer.address).value.row;
            var signed := SignedRow(row, NormalizeFees(fees).value, raw);
            Run(sha, prior + Broadcasts(id, a, signer, row.body.nonce, fees, raw, tx)) == State(
              false,
              s.history + [Event(Committed, row), Event(SignedBy(signer), signed), Event(Sent, signed),
                           Event(Noted, BroadcastRow(signed, tx))],
              s.pending)
  {
    hide GoodHistory, GoodPending, MatchesIntent, DecideCommit, DecideSign, DecideSend, NormalizeFees, WithinCeiling,
         Rows, Run;
    RunKeeps(sha, prior);
    var s := Run(sha, prior);
    var row := DecideCommit(sha, Rows(s.history), a, signer.address).value.row;
    var quote, nonce := NormalizeFees(fees).value, row.body.nonce;
    var signed := SignedRow(row, quote, raw);
    var s1 := Next(sha, s, Commit(a, signer.address, Landed));
    RowsOfAppend(s.history, Event(Committed, row));
    FreshIntentIsSigned(sha, s.history, a, signer, fees);
    var s2 := Next(sha, s1, SignStart(id, signer, nonce, fees));
    assert s2 == s1.(pending := s1.pending[id := Signing(signer, row, quote)]);
    var s3 := Next(sha, s2, SignFinish(id, Some(raw), Landed));
    RowsOfAppend(s1.history, Event(SignedBy(signer), signed));
    SignThenSend(Rows(s1.history), signer, nonce, fees, raw);
    assert s3.pending == s.pending;
    var s4 := Next(sha, s3, SendStart(id, nonce, fees));
    assert s4 == State(false, s3.history + [Event(Sent, signed)], s.pending[id := Sending(signed)]);
    var s5 := Next(sha, s4, SendFinish(id, Some(tx), Landed));
    assert s5.pending == s.pending;
    RunOfFive(sha, prior, Broadcasts(id, a, signer, nonce, fees, raw, tx));
  }

  /** No row on the log has this anchor's nonce, and none its chain, contract and epoch. */
  predicate FreshAnchor(rows: seq<Row>, a: AnchorInput) {
    forall row :: row in rows ==>
      && row.body.nonce != a.nonce
      && !(row.body.chainId == a.chainId && row.body.to == a.to && row.body.epoch == a.epoch)
  }

  /**
   * After every run that left the log readable, an acceptable anchor of a fresh nonce and a
   * fresh epoch, with fees within the ceiling and a matching signature, goes through: intent,
   * signature, one send of exactly that signature, and the broadcast row, in this order and
   * nothing else.
   */
  lemma {:induction false} BroadcastGetsThrough(
    sha: Sha, prior: seq<Action>, id: nat, a: AnchorInput, signer: Signer, fees: RawFees, raw: bytes, tx: bytes)
    requires !Run(sha, prior).broken && id !in Run(sha, prior).pending
    requires Acceptable(sha, a) && |signer.address| == 20 && FreshAnchor(Rows(Run(sha, prior).history), a)
    requires GoodFees(fees) && !AboveCeiling(fees, signer.ceiling)
    requires raw != [] && MatchesIntent(raw, CommittedBody(sha, a))
    ensures var s := Run(sha, prior);
            var row := Row(Intent, CommittedBody(sha, a), signer.address, None, None, None);
            var signed := Row(Signed, row.body, signer.address, Some(QuoteOf(fees)), Some(raw), None);
            Run(sha, prior + Broadcasts(id, a, signer, a.nonce, fees, raw, tx)) == State(
              false,
              s.history + [Event(Committed, row), Event(SignedBy(signer), signed), Event(Sent, signed),
                           Event(Noted, signed.(status := Broadcast, tx := Some(tx)))],
              s.pending)
  {
    hide GoodHistory, GoodPending, MatchesIntent, DecideCommit, DecideSign, DecideSend, NormalizeFees, WithinCeiling,
         Rows, Run, Acceptable, CommittedBody, Broadcasts;
    var rows := Rows(Run(sha, prior).history);
    FreshIsClear(sha, rows, a, signer.address);
    CommitAnswers(sha, rows, a, signer.address);
    QuoteExactly(fees, signer.ceiling);
    BodyNonce(sha, a);
    BroadcastSteps(sha, prior, id, a, signer, fees, raw, tx);
  }

  lemma {:induction false} BodyNonce(sha: Sha, a: AnchorInput)
    requires Acceptable(sha, a)
    ensures NonNegative(a) && CommittedBody(sha, a).nonce == a.nonce
  {
  }

  lemma {:induction false} FreshIsClear(sha: Sha, rows: seq<Row>, a: AnchorInput, from: bytes)
    requires Acceptable(sha, a) && |from| == 20 && FreshAnchor(rows, a)
    ensures Clear(sha, rows, a, from) && NoIntent(rows, a.nonce)
  {
    hide Spelled, DomainOf, AnchorText;
    forall i | 0 <= i < |rows|
      ensures !OtherNonce(rows[i].body, a) && rows[i].body.nonce != a.nonce
    {
      assert rows[i] in rows;
    }
  }

  /** The four steps of bumpAnchorFees, none of which fails. */
  function Bumps(id: nat, signer: Signer, nonce: int, fees: RawFees, raw: bytes, tx: bytes): seq<Action> {
    [SignStart(id, signer, nonce, fees), SignFinish(id, Some(raw), Landed), SendStart(id, nonce, fees),
     SendFinish(id, Some(tx), Landed)]
  }

  /**
   * After every run that left the log readable, a fee bump of a committed nonce goes through:
   * its own signer, fees within the ceiling that were not signed before, and a matching
   * signature. The same body is signed at the new fees, sent once and noted.
   */
  lemma {:induction false} BumpGetsThrough(
    sha: Sha, prior: seq<Action>, id: nat, signer: Signer, nonce: int, fees: RawFees, raw: bytes, tx: bytes, i: nat)
    requires !Run(sha, prior).broken && id !in Run(sha, prior).pending
    requires FirstIntent(Rows(Run(sha, prior).history), i, nonce)
    requires Rows(Run(sha, prior).history)[i].from == signer.address
    requires GoodFees(fees) && !AboveCeiling(fees, signer.ceiling)
    requires forall row :: row in Rows(Run(sha, prior).history) ==> !SignatureOf(row, nonce, fees)
    requires raw != [] && MatchesIntent(raw, Rows(Run(sha, prior).history)[i].body)
    ensures var s := Run(sha, prior);
            var body := Rows(s.history)[i].body;
            var signed := Row(Signed, body, signer.address, Some(QuoteOf(fees)), Some(raw), None);
            Run(sha, prior + Bumps(id, signer, nonce, fees, raw, tx)) == State(
              false,
              s.history + [Event(SignedBy(signer), signed), Event(Sent, signed),
                           Event(Noted, signed.(status := Broadcast, tx := Some(tx)))],
              s.pending)
  {
    hide MatchesIntent, DecideSign, DecideSend, NormalizeFees, WithinCeiling, Rows, Run;
    var s := Run(sha, prior);
    var rows := Rows(s.history);
    var intent, quote := rows[i], QuoteOf(fees);
    SignAnswers(rows, signer, nonce, fees, i);
    var signed := SignedRow(intent, quote, raw);
    var s1 := Next(sha, s, SignStart(id, signer, nonce, fees));
    assert s1 == s.(pending := s.pending[id := Signing(signer, intent, quote)]);
    var s2 := Next(sha, s1, SignFinish(id, Some(raw), Landed));
    RowsOfAppend(s.history, Event(SignedBy(signer), signed));
    SignThenSend(rows, signer, nonce, fees, raw);
    assert s2.pending == s.pending;
    var s3 := Next(sha, s2, SendStart(id, nonce, fees));
    assert s3 == State(false, s2.history + [Event(Sent, signed)], s.pending[id := Sending(signed)]);
    var s4 := Next(sha, s3, SendFinish(id, Some(tx), Landed));
    assert s4.pending == s.pending;
    RunOfFour(sha, prior, Bumps(id, signer, nonce, fees, raw, tx));
  }

  lemma {:induction false} RunOfFour(sha: Sha, prior: seq<Action>, four: seq<Action>)
    requires |four| == 4
    ensures Run(sha, prior + four)
         == Next(sha, Next(sha, Next(sha, Next(sha, Run(sha, prior), four[0]), four[1]), four[2]), four[3])
  {
    hide Next, Run;
    var p1 := prior + [four[0]];
    var p2 := p1 + [four[1]];
    var p3 := p2 + [four[2]];
    RunOfAppend(sha, prior, four[0]);
    RunOfAppend(sha, p1, four[1]);
    RunOfAppend(sha, p2, four[2]);
    RunOfAppend(sha, p3, four[3]);
    assert prior + four == p3 + [four[3]];
  }

  lemma {:induction false} RowsOfAppend(h: seq<Event>, e: Event)
    ensures Rows(h + [e]) == Rows(h) + (if e.kind == Sent then [] else [e.row])
  {
    assert (h + [e])[..|h|] == h;
  }

  lemma {:induction false} RunOfAppend(sha: Sha, prior: seq<Action>, a: Action)
    ensures Run(sha, prior + [a]) == Next(sha, Run(sha, prior), a)
  {
    hide Next;
    assert (prior + [a])[..|prior|] == prior;
  }

  lemma {:induction false} RunOfFive(sha: Sha, prior: seq<Action>, five: seq<Action>)
    requires |five| == 5
    ensures Run(sha, prior + five)
         == Next(sha, Next(sha, Next(sha, Next(sha, Next(sha, Run(sha, prior), five[0]), five[1]), five[2]), five[3]),
                 five[4])
  {
    hide Next, Run;
    var p1 := prior + [five[0]];
    var p2 := p1 + [five[1]];
    var p3 := p2 + [five[2]];
    var p4 := p3 + [five[3]];
    RunOfAppend(sha, prior, five[0]);
    RunOfAppend(sha, p1, five[1]);
    RunOfAppend(sha, p2, five[2]);
    RunOfAppend(sha, p3, five[3]);
    RunOfAppend(sha, p4, five[4]);
    assert p4 + [five[4]] == prior + five;
  }
}
