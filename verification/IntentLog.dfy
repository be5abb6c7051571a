/**
 * The append-only anchor log (services/chit-sealer/kms-secp256k1.js): one record a
 * line, written by a loop that tolerates short writes, read back strictly.
 *
 * The record text is abstract: any codec whose texts have no newline, parse back,
 * and do not parse once two pieces of them run together on one line.
 */
module IntentLog {
  import opened Bytes
  import Rlp

  const NEWLINE: byte := 10

  datatype LogError = Torn | ShortWrite | NotSynced

  datatype Codec<!R> = Codec(encode: R -> bytes, parse: bytes -> Option<R>)

  /** A non-empty prefix of some record's text. */
  ghost predicate IsPiece<R(!new)>(c: Codec<R>, piece: bytes) {
    piece != [] && exists r: R :: piece <= c.encode(r)
  }

  ghost predicate ArePieces<R(!new)>(c: Codec<R>, pieces: seq<bytes>) {
    forall i :: 0 <= i < |pieces| ==> IsPiece(c, pieces[i])
  }

  ghost predicate ParsesBack<R(!new)>(c: Codec<R>, r: R) {
    c.encode(r) != [] && NEWLINE !in c.encode(r) && c.parse(c.encode(r)) == Some(r)
  }

  ghost predicate RefusesRunOn<R(!new)>(c: Codec<R>, pieces: seq<bytes>) {
    |pieces| >= 2 && ArePieces(c, pieces) ==> c.parse(Rlp.Concat(pieces)) == None
  }

  /** What JSON.stringify and JSON.parse give for the log's objects. */
  ghost predicate GoodCodec<R(!new)>(c: Codec<R>) {
    (forall r: R :: ParsesBack(c, r)) && (forall pieces :: RefusesRunOn(c, pieces))
  }

  function Unary(n: nat): bytes { [3] + seq(n, _ => 1) }

  function ReadUnary(text: bytes): Option<nat> {
    if text != [] && text[0] == 3 && (forall i :: 0 < i < |text| ==> text[i] == 1) then Some(|text| - 1) else None
  }

  /** The assumption is consistent: a start mark and a count in unary meet it. */
  lemma {:induction false} GoodCodecExists()
    ensures GoodCodec(Codec(Unary, ReadUnary))
  {
    var c := Codec(Unary, ReadUnary);
    assert forall r :: ParsesBack(c, r);
    forall pieces ensures RefusesRunOn(c, pieces) {
      if |pieces| >= 2 && ArePieces(c, pieces) {
        assert IsPiece(c, pieces[0]) && IsPiece(c, pieces[1]);
        assert Rlp.Concat(pieces[1..]) == pieces[1] + Rlp.Concat(pieces[2..]) by {
          assert pieces[1..][1..] == pieces[2..];
        }
        assert Rlp.Concat(pieces)[|pieces[0]|] == 3;
      }
    }
  }

  // ---- the text of a log ---------------------------------------------------

  function Line<R(!new)>(c: Codec<R>, r: R): bytes { c.encode(r) + [NEWLINE] }

  function Lines<R(!new)>(c: Codec<R>, records: seq<R>): bytes {
    if records == [] then [] else Line(c, records[0]) + Lines(c, records[1..])
  }

  /** The end of the first line at or after `from`, or the end of the text. */
  function LineEnd(text: bytes, from: nat): (end: nat)
    requires from <= |text|
    ensures from <= end <= |text| && NEWLINE !in text[from..end]
    ensures end < |text| ==> text[end] == NEWLINE
    decreases |text| - from
  {
    if from == |text| || text[from] == NEWLINE then from
    else
      var end := LineEnd(text, from + 1);
      assert text[from..end] == [text[from]] + text[from + 1..end];
      end
  }

  /** readIntentLog: blank lines are skipped, anything else must parse. */
  function ReadFrom<R(!new)>(c: Codec<R>, text: bytes, from: nat): Result<seq<R>, LogError>
    requires from <= |text|
    decreases |text| - from
  {
    if from == |text| then Ok([])
    else
      var end := LineEnd(text, from);
      if end == |text| then Err(Torn)
      else match ReadFrom(c, text, end + 1)
        case Err(e) => Err(e)
        case Ok(rest) =>
          if end == from then Ok(rest)
          else match c.parse(text[from..end])
            case None => Err(Torn)
            case Some(r) => Ok([r] + rest)
  }

  function ReadIntentLog<R(!new)>(c: Codec<R>, text: bytes): Result<seq<R>, LogError> { ReadFrom(c, text, 0) }

  // ---- reading what was written --------------------------------------------

  lemma {:induction false} LinesAppend<R(!new)>(c: Codec<R>, records: seq<R>, r: R)
    ensures Lines(c, records + [r]) == Lines(c, records) + Line(c, r)
  {
    if records == [] {
      assert [r][1..] == [];
      assert Lines(c, [r]) == Line(c, r) + Lines(c, []);
    } else {
      assert (records + [r])[1..] == records[1..] + [r];
      LinesAppend(c, records[1..], r);
    }
  }

  /** Where a newline-free stretch ends. */
  lemma {:induction false} LineEndIs(text: bytes, from: nat, end: nat)
    requires from <= end <= |text| && NEWLINE !in text[from..end]
    requires end == |text| || text[end] == NEWLINE
    ensures LineEnd(text, from) == end
    decreases end - from
  {
    if from < end {
      assert text[from] == text[from..end][0];
      assert forall b :: b in text[from + 1..end] ==> b in text[from..end];
      LineEndIs(text, from + 1, end);
    }
  }

  lemma {:induction false} ReadLine<R(!new)>(c: Codec<R>, text: bytes, from: nat, r: R, mid: nat)
    requires ParsesBack(c, r) && from <= mid < |text|
    requires text[from..mid] == c.encode(r) && text[mid] == NEWLINE
    ensures ReadFrom(c, text, from) == match ReadFrom(c, text, mid + 1)
                                       case Err(e) => Err(e)
                                       case Ok(rest) => Ok([r] + rest)
  {
    LineEndIs(text, from, mid);
  }

  /** Complete lines are read one by one; what follows them is read on its own. */
  lemma {:induction false} ReadPastLines<R(!new)>(c: Codec<R>, text: bytes, from: nat, records: seq<R>, end: nat)
    requires GoodCodec(c) && from <= end <= |text| && text[from..end] == Lines(c, records)
    ensures ReadFrom(c, text, from) == match ReadFrom(c, text, end)
                                       case Err(e) => Err(e)
                                       case Ok(rest) => Ok(records + rest)
    decreases |records|
  {
    hide ReadFrom, RefusesRunOn;
    if records == [] {
      assert forall rest: seq<R> :: records + rest == rest;
    } else {
      var line := c.encode(records[0]);
      var mid := from + |line|;
      assert ParsesBack(c, records[0]);
      assert text[from..mid] == text[from..end][..|line|] == line;
      assert text[mid] == text[from..end][|line|] == NEWLINE;
      ReadLine(c, text, from, records[0], mid);
      assert text[mid + 1..end] == text[from..end][|line| + 1..] == Lines(c, records[1..]);
      ReadPastLines(c, text, mid + 1, records[1..], end);
      assert forall rest: seq<R> :: [records[0]] + (records[1..] + rest) == records + rest;
    }
  }

  /** A log of complete lines reads back as its records. */
  lemma {:induction false} ReadComplete<R(!new)>(c: Codec<R>, records: seq<R>)
    requires GoodCodec(c)
    ensures ReadIntentLog(c, Lines(c, records)) == Ok(records)
  {
    var text := Lines(c, records);
    assert text[0..|text|] == text;
    ReadPastLines(c, text, 0, records, |text|);
    assert records + [] == records;
  }

  // ---- torn logs -----------------------------------------------------------

  /**
   * Complete lines, then at least one piece of a record with no newline after it,
   * or at least two pieces run together; anything may follow the run-on line.
   */
  ghost predicate BrokenAs<R(!new)>(c: Codec<R>, text: bytes, records: seq<R>, pieces: seq<bytes>, rest: bytes) {
    && text == Lines(c, records) + Rlp.Concat(pieces) + rest
    && |pieces| >= 1 && ArePieces(c, pieces)
    && (rest != [] ==> rest[0] == NEWLINE && |pieces| >= 2)
  }

  ghost predicate Broken<R(!new)>(c: Codec<R>, text: bytes) {
    exists records: seq<R>, pieces, rest :: BrokenAs(c, text, records, pieces, rest)
  }

  lemma {:induction false} PiecesHaveNoNewline<R(!new)>(c: Codec<R>, pieces: seq<bytes>)
    requires GoodCodec(c) && ArePieces(c, pieces)
    ensures NEWLINE !in Rlp.Concat(pieces)
    ensures pieces != [] ==> Rlp.Concat(pieces) != []
  {
    if pieces != [] {
      assert IsPiece(c, pieces[0]);
      var r: R :| pieces[0] <= c.encode(r);
      assert ParsesBack(c, r);
      assert forall i :: 0 <= i < |pieces[1..]| ==> IsPiece(c, pieces[1..][i]) by {
        assert forall i :: 0 <= i < |pieces[1..]| ==> pieces[1..][i] == pieces[i + 1];
      }
      PiecesHaveNoNewline(c, pieces[1..]);
    }
  }

  /** A broken log is refused with the torn-line error. */
  lemma {:induction false} BrokenIsRefused<R(!new)>(c: Codec<R>, text: bytes)
    requires GoodCodec(c) && Broken(c, text)
    ensures ReadIntentLog(c, text) == Err(Torn)
  {
    var records: seq<R>, pieces, rest :| BrokenAs(c, text, records, pieces, rest);
    var start := |Lines(c, records)|;
    var end := start + |Rlp.Concat(pieces)|;
    PiecesHaveNoNewline(c, pieces);
    assert text[0..start] == Lines(c, records);
    assert text[start..end] == Rlp.Concat(pieces);
    assert rest != [] ==> text[end] == rest[0];
    LineEndIs(text, start, end);
    assert RefusesRunOn(c, pieces);
    ReadErrorsAreTorn(c, text, start);
    if rest != [] {
      ReadErrorsAreTorn(c, text, end + 1);
    }
    ReadPastLines(c, text, 0, records, start);
  }

  lemma {:induction false} ReadErrorsAreTorn<R(!new)>(c: Codec<R>, text: bytes, from: nat)
    requires from <= |text|
    ensures ReadFrom(c, text, from).Err? ==> ReadFrom(c, text, from).error == Torn
    decreases |text| - from
  {
    if from < |text| && LineEnd(text, from) < |text| {
      ReadErrorsAreTorn(c, text, LineEnd(text, from) + 1);
    }
  }

  lemma {:induction false} ConcatAppend(pieces: seq<bytes>, piece: bytes)
    ensures Rlp.Concat(pieces + [piece]) == Rlp.Concat(pieces) + piece
  {
    if pieces == [] {
      assert [piece][1..] == [];
      assert Rlp.Concat([piece]) == piece + Rlp.Concat([]);
    } else {
      assert (pieces + [piece])[1..] == pieces[1..] + [piece];
      ConcatAppend(pieces[1..], piece);
    }
  }

  /** More text after a run-on line leaves it run on. */
  lemma {:induction false} RestGrows<R(!new)>(
    c: Codec<R>, text: bytes, records: seq<R>, pieces: seq<bytes>, rest: bytes, added: bytes)
    requires BrokenAs(c, text, records, pieces, rest) && rest != []
    ensures BrokenAs(c, text + added, records, pieces, rest + added)
  {
    hide Lines, ArePieces;
    ConcatAssoc(Lines(c, records) + Rlp.Concat(pieces), rest, added);
  }

  /** The piece of a record that the first bytes of its line hold, and what follows it. */
  function LandedPiece<R(!new)>(c: Codec<R>, r: R, landed: nat): (bytes, bytes)
    requires landed <= |Line(c, r)|
  {
    if landed <= |c.encode(r)| then (Line(c, r)[..landed], []) else (c.encode(r), [NEWLINE])
  }

  lemma {:induction false} LandedIsPiece<R(!new)>(c: Codec<R>, r: R, landed: nat)
    requires GoodCodec(c) && 0 < landed <= |Line(c, r)|
    ensures var (piece, rest) := LandedPiece(c, r, landed);
            Line(c, r)[..landed] == piece + rest && IsPiece(c, piece)
  {
    assert ParsesBack(c, r);
    var piece := LandedPiece(c, r, landed).0;
    assert piece <= c.encode(r);
  }

  lemma {:induction false} MorePieces<R(!new)>(c: Codec<R>, pieces: seq<bytes>, piece: bytes)
    requires ArePieces(c, pieces) && IsPiece(c, piece)
    ensures ArePieces(c, pieces + [piece])
  {
    hide IsPiece;
  }

  /** A piece that lands after an unfinished line joins it. */
  lemma {:induction false} PieceJoins<R(!new)>(
    c: Codec<R>, text: bytes, records: seq<R>, pieces: seq<bytes>, piece: bytes, rest: bytes)
    requires BrokenAs(c, text, records, pieces, []) && IsPiece(c, piece) && (rest == [] || rest == [NEWLINE])
    ensures BrokenAs(c, text + (piece + rest), records, pieces + [piece], rest)
  {
    hide Lines, ArePieces, IsPiece, Rlp.Concat;
    ConcatAppend(pieces, piece);
    MorePieces(c, pieces, piece);
    var head, run := Lines(c, records), Rlp.Concat(pieces);
    assert text == head + run;
    ConcatAssoc(head + run, piece, rest);
    ConcatAssoc(head, run, piece);
  }

  /** Once broken, always broken: no later append, whole or partial, repairs the log. */
  lemma {:induction false} BrokenStaysBroken<R(!new)>(c: Codec<R>, text: bytes, r: R, landed: nat)
    requires GoodCodec(c) && Broken(c, text) && landed <= |Line(c, r)|
    ensures Broken(c, text + Line(c, r)[..landed])
  {
    hide BrokenAs, GoodCodec, Line;
    var records: seq<R>, pieces, rest :| BrokenAs(c, text, records, pieces, rest);
    var added := Line(c, r)[..landed];
    if rest != [] {
      RestGrows(c, text, records, pieces, rest, added);
    } else if landed == 0 {
      assert text + added == text;
    } else {
      LandedIsPiece(c, r, landed);
      var (piece, rest') := LandedPiece(c, r, landed);
      PieceJoins(c, text, records, pieces, piece, rest');
    }
  }

  /** What an append that landed partly leaves behind. */
  lemma {:induction false} PartialLineBreaks<R(!new)>(c: Codec<R>, records: seq<R>, r: R, landed: nat)
    requires GoodCodec(c) && 0 < landed < |Line(c, r)|
    ensures Broken(c, Lines(c, records) + Line(c, r)[..landed])
  {
    var piece := Line(c, r)[..landed];
    assert ParsesBack(c, r);
    assert piece <= c.encode(r);
    assert IsPiece(c, piece);
    var pieces := [piece];
    assert Rlp.Concat(pieces) == piece by {
      assert pieces[1..] == [];
      assert Rlp.Concat(pieces) == piece + Rlp.Concat([]);
    }
    assert BrokenAs(c, Lines(c, records) + piece, records, pieces, []);
  }

  /**
   * Crash consistency: after k complete appends and any prefix of the next write,
   * a read returns the k records, or k + 1 records, or the torn-line error, and
   * which one is decided by how much landed.
   */
  lemma {:induction false} CrashConsistent<R(!new)>(c: Codec<R>, records: seq<R>, r: R, landed: nat)
    requires GoodCodec(c) && landed <= |Line(c, r)|
    ensures ReadIntentLog(c, Lines(c, records) + Line(c, r)[..landed])
         == if landed == 0 then Ok(records)
            else if landed == |Line(c, r)| then Ok(records + [r])
            else Err(Torn)
  {
    var text := Lines(c, records) + Line(c, r)[..landed];
    if landed == 0 {
      assert text == Lines(c, records);
      ReadComplete(c, records);
    } else if landed == |Line(c, r)| {
      LinesAppend(c, records, r);
      assert text == Lines(c, records + [r]);
      ReadComplete(c, records + [r]);
    } else {
      PartialLineBreaks(c, records, r, landed);
      BrokenIsRefused(c, text);
    }
  }

  // ---- exactly what is read ------------------------------------------------

  ghost predicate FreeOfNewlines(lines: seq<bytes>) { forall i :: 0 <= i < |lines| ==> NEWLINE !in lines[i] }

  /** The lines, each ended by a newline. */
  function Ended(lines: seq<bytes>): bytes {
    if lines == [] then [] else lines[0] + [10] + Ended(lines[1..])
  }

  /** The records of the lines that are not blank, if every one of those parses. */
  function Parsed<R(!new)>(c: Codec<R>, lines: seq<bytes>): Option<seq<R>> {
    if lines == [] then Some([])
    else match (c.parse(lines[0]), Parsed(c, lines[1..]))
      case (_, None) => None
      case (None, Some(rest)) => if lines[0] == [] then Some(rest) else None
      case (Some(r), Some(rest)) => Some(if lines[0] == [] then rest else [r] + rest)
  }

  ghost predicate ReadsAs<R(!new)>(c: Codec<R>, text: bytes, lines: seq<bytes>, records: seq<R>) {
    FreeOfNewlines(lines) && text == Ended(lines) && Parsed(c, lines) == Some(records)
  }

  /** One turn of the reader's recursion. */
  lemma {:induction false} ReadFromStep<R(!new)>(c: Codec<R>, text: bytes, from: nat)
    requires from < |text|
    ensures var end := LineEnd(text, from);
            ReadFrom(c, text, from)
            == if end == |text| then Err(Torn)
               else match ReadFrom(c, text, end + 1)
                 case Err(e) => Err(e)
                 case Ok(rest) =>
                   if end == from then Ok(rest)
                   else match c.parse(text[from..end])
                     case None => Err(Torn)
                     case Some(r) => Ok([r] + rest)
  {
    hide LineEnd;
  }

  /** One line more in front of what is read. */
  lemma {:induction false} OneLineMore<R(!new)>(
    c: Codec<R>, line: bytes, text: bytes, lines: seq<bytes>, records: seq<R>)
    requires ReadsAs(c, text, lines, records) && NEWLINE !in line
    ensures line == [] ==> ReadsAs(c, line + [10] + text, [line] + lines, records)
    ensures line != [] && c.parse(line).Some? ==>
              ReadsAs(c, line + [10] + text, [line] + lines, [c.parse(line).value] + records)
  {
    assert ([line] + lines)[1..] == lines;
  }

  lemma {:induction false} NothingReads<R(!new)>(c: Codec<R>)
    ensures ReadsAs(c, [], [], [])
  {
  }

  lemma {:induction false} CutAtNewline(text: bytes, from: nat, end: nat)
    requires from <= end < |text| && text[end] == NEWLINE
    ensures text[from..] == text[from..end] + [10] + text[end + 1..]
  {
  }

  /** The lines behind a successful read. */
  lemma {:induction false} ReadHasLines<R(!new)>(c: Codec<R>, text: bytes, from: nat) returns (lines: seq<bytes>)
    requires from <= |text| && ReadFrom(c, text, from).Ok?
    ensures ReadsAs(c, text[from..], lines, ReadFrom(c, text, from).value)
    decreases |text| - from
  {
    hide LineEnd, ReadFrom, ReadsAs;
    if from == |text| {
      lines := [];
      NothingReads(c);
      AllRead(c, text, []);
      NothingRead(ReadFrom(c, text, from));
    } else {
      var end := LineEnd(text, from);
      ReadFromStep(c, text, from);
      var rest := ReadHasLines(c, text, end + 1);
      lines := [text[from..end]] + rest;
      CutAtNewline(text, from, end);
      OneLineMore(c, text[from..end], text[end + 1..], rest, ReadFrom(c, text, end + 1).value);
    }
  }

  /** One line, blank or not. */
  lemma {:induction false} ReadStep<R(!new)>(c: Codec<R>, text: bytes, from: nat, end: nat)
    requires from <= end < |text| && NEWLINE !in text[from..end] && text[end] == NEWLINE
    ensures ReadFrom(c, text, from)
         == match ReadFrom(c, text, end + 1)
            case Err(e) => Err(e)
            case Ok(rest) =>
              if end == from then Ok(rest)
              else match c.parse(text[from..end])
                case None => Err(Torn)
                case Some(r) => Ok([r] + rest)
  {
    LineEndIs(text, from, end);
  }

  /** The first of some ended lines. */
  lemma {:induction false} FirstEnded(text: bytes, from: nat, lines: seq<bytes>)
    requires from <= |text| && lines != [] && text[from..] == Ended(lines)
    ensures var end := from + |lines[0]|;
            end < |text| && text[from..end] == lines[0] && text[end] == 10 && text[end + 1..] == Ended(lines[1..])
  {
    var end := from + |lines[0]|;
    var all := text[from..];
    assert all == lines[0] + [10] + Ended(lines[1..]);
    assert all[..|lines[0]|] == lines[0] && all[|lines[0]|] == 10 && all[|lines[0]| + 1..] == Ended(lines[1..]);
    assert text[from..end] == all[..|lines[0]|] && text[end + 1..] == all[|lines[0]| + 1..];
  }

  lemma {:induction false} NoLines<R(!new)>(c: Codec<R>, text: bytes, from: nat)
    requires from <= |text| && text[from..] == Ended([])
    ensures ReadFrom(c, text, from) == Ok([])
  {
    assert from == |text|;
  }

  /** Ended lines that parse are read. */
  lemma {:induction false} LinesAreRead<R(!new)>(c: Codec<R>, text: bytes, from: nat, lines: seq<bytes>)
    requires from <= |text| && FreeOfNewlines(lines) && text[from..] == Ended(lines)
    ensures ReadFrom(c, text, from)
         == match Parsed(c, lines)
            case Some(records) => Ok(records)
            case None => Err(Torn)
    decreases |lines|
  {
    hide ReadFrom, Ended;
    if lines == [] {
      NoLines(c, text, from);
    } else {
      FirstEnded(text, from, lines);
      var end := from + |lines[0]|;
      assert NEWLINE !in lines[0];
      ReadStep(c, text, from, end);
      LinesAreRead(c, text, end + 1, lines[1..]);
    }
  }

  /**
   * A log reads as records exactly when it is ended lines, each blank or a record's text, and
   * those are the records in order; every other text is torn.
   */
  lemma {:induction false} ReadExactly<R(!new)>(c: Codec<R>, text: bytes, records: seq<R>)
    ensures ReadIntentLog(c, text) == Ok(records) <==> exists lines :: ReadsAs(c, text, lines, records)
    ensures ReadIntentLog(c, text).Ok? || ReadIntentLog(c, text) == Err(Torn)
  {
    hide ReadFrom, Ended, Parsed;
    assert text[0..] == text;
    ReadErrorsAreTorn(c, text, 0);
    if ReadIntentLog(c, text) == Ok(records) {
      var lines := ReadHasLines(c, text, 0);
      assert ReadsAs(c, text, lines, records);
    }
    if lines :| ReadsAs(c, text, lines, records) {
      LinesAreRead(c, text, 0, lines);
    }
  }

  // ---- reading line by line ------------------------------------------------

  /** Records already read, before what the rest of the text gives. */
  function Prepend<R(!new)>(records: seq<R>, rest: Result<seq<R>, LogError>): Result<seq<R>, LogError> {
    match rest
    case Err(e) => Err(e)
    case Ok(more) => Ok(records + more)
  }

  lemma {:induction false} NothingRead<R(!new)>(rest: Result<seq<R>, LogError>)
    ensures Prepend([], rest) == rest
  {
    if rest.Ok? {
      assert [] + rest.value == rest.value;
    }
  }

  lemma {:induction false} AllRead<R(!new)>(c: Codec<R>, text: bytes, records: seq<R>)
    ensures Prepend(records, ReadFrom(c, text, |text|)) == Ok(records)
  {
    assert records + [] == records;
  }

  /** One turn of the reading loop. */
  lemma {:induction false} ReadTurn<R(!new)>(c: Codec<R>, text: bytes, from: nat, records: seq<R>)
    requires from < |text|
    ensures var (end, all) := (LineEnd(text, from), Prepend(records, ReadFrom(c, text, from)));
            if end == |text| then all == Err(Torn)
            else if end == from then all == Prepend(records, ReadFrom(c, text, end + 1))
            else match c.parse(text[from..end])
              case None => all == Err(Torn)
              case Some(r) => all == Prepend(records + [r], ReadFrom(c, text, end + 1))
  {
    hide LineEnd, ReadFrom;
    var end := LineEnd(text, from);
    ReadFromStep(c, text, from);
    if end < |text| {
      ReadErrorsAreTorn(c, text, end + 1);
      if end != from && c.parse(text[from..end]).Some? && ReadFrom(c, text, end + 1).Ok? {
        var (r, rest) := (c.parse(text[from..end]).value, ReadFrom(c, text, end + 1).value);
        assert records + ([r] + rest) == (records + [r]) + rest;
      }
    }
  }

  // ---- the log object ------------------------------------------------------

  /**
   * One answer of the write call: the count it reports, and how many bytes it put
   * down when that count is not a legal one.
   */
  datatype Reply = Reply(reported: int, landed: nat)

  datatype WriteStatus = Written | WriteShort | Crashed

  /** How writing `length` bytes ends under these answers, and how many land. */
  function WriteResult(length: nat, replies: seq<Reply>): (r: (WriteStatus, nat))
    ensures r.1 <= length && (r.0 == Written ==> r.1 == length)
    decreases |replies|
  {
    if length == 0 then (Written, 0)
    else if replies == [] then (Crashed, 0)
    else
      var n := replies[0].reported;
      if n <= 0 || n > length then (WriteShort, if replies[0].landed <= length then replies[0].landed else length)
      else
        var (status, landed) := WriteResult(length - n, replies[1..]);
        (status, n + landed)
  }

  /** The sum of the reported counts. */
  function Total(replies: seq<Reply>): int {
    if replies == [] then 0 else Total(replies[..|replies| - 1]) + replies[|replies| - 1].reported
  }

  predicate AllPositive(replies: seq<Reply>) { forall i :: 0 <= i < |replies| ==> replies[i].reported > 0 }

  /** The first k answers are positive counts short of the whole. */
  predicate Underway(length: nat, replies: seq<Reply>, k: nat) {
    k <= |replies| && AllPositive(replies[..k]) && Total(replies[..k]) < length
  }

  lemma {:induction false} TotalSplits(first: Reply, rest: seq<Reply>)
    ensures Total([first] + rest) == first.reported + Total(rest)
  {
    var all := [first] + rest;
    if rest == [] {
      assert all[..0] == [];
    } else {
      assert all[..|all| - 1] == [first] + rest[..|rest| - 1];
      TotalSplits(first, rest[..|rest| - 1]);
    }
  }

  /** After k positive answers that leave something to write, the rest goes on from there. */
  lemma {:induction false} WriteGoesOn(length: nat, replies: seq<Reply>, k: nat)
    requires Underway(length, replies, k)
    ensures Total(replies[..k]) >= 0
    ensures var (status, landed) := WriteResult(length - Total(replies[..k]), replies[k..]);
            WriteResult(length, replies) == (status, Total(replies[..k]) + landed)
    decreases k
  {
    hide WriteResult;
    if k == 0 {
      assert replies[0..] == replies;
    } else {
      var n, tail := replies[0].reported, replies[1..];
      assert replies[..k] == [replies[0]] + tail[..k - 1] && replies[k..] == tail[k - 1..];
      PositiveTail(replies[0], tail[..k - 1]);
      TotalSplits(replies[0], tail[..k - 1]);
      TotalPositive(tail[..k - 1]);
      WriteGoesOn(length - n, tail, k - 1);
      WriteTurn(length, replies);
    }
  }

  lemma {:induction false} PositiveTail(first: Reply, rest: seq<Reply>)
    requires AllPositive([first] + rest)
    ensures first.reported > 0 && AllPositive(rest)
  {
    var all := [first] + rest;
    assert all[0] == first;
    forall i | 0 <= i < |rest| ensures rest[i].reported > 0 {
      assert all[i + 1] == rest[i];
    }
  }

  lemma {:induction false} TotalPositive(replies: seq<Reply>)
    requires AllPositive(replies)
    ensures Total(replies) >= 0
  {
    if replies != [] {
      TotalPositive(replies[..|replies| - 1]);
    }
  }

  /** One legal answer. */
  lemma {:induction false} WriteTurn(length: nat, replies: seq<Reply>)
    requires replies != [] && 0 < replies[0].reported <= length
    ensures var (status, landed) := WriteResult(length - replies[0].reported, replies[1..]);
            WriteResult(length, replies) == (status, replies[0].reported + landed)
  {
  }

  /** Where a write ends with the next answer, or without one. */
  lemma {:induction false} WriteEnds(length: nat, replies: seq<Reply>)
    ensures length == 0 ==> WriteResult(length, replies) == (Written, 0)
    ensures length > 0 && replies == [] ==> WriteResult(length, replies) == (Crashed, 0)
    ensures length > 0 && replies != [] && !(0 < replies[0].reported <= length) ==>
              WriteResult(length, replies)
              == (WriteShort, if replies[0].landed <= length then replies[0].landed else length)
  {
  }

  lemma {:induction false} TextGrows(file: bytes, text: bytes, from: nat, to: nat)
    requires from <= to <= |text|
    ensures file + text[..from] + text[from..to] == file + text[..to]
  {
    assert text[..from] + text[from..to] == text[..to];
  }

  /**
   * How a write ends, from the counts alone: it is whole when the last of some positive counts
   * completes it, short at the first count that is not positive or goes past the end, and it
   * crashes when the answers run out before that.
   */
  lemma {:induction false} WriteExactly(length: nat, replies: seq<Reply>, k: nat)
    requires Underway(length, replies, k)
    ensures k < |replies| && 0 < replies[k].reported == length - Total(replies[..k]) ==>
              WriteResult(length, replies) == (Written, length)
    ensures k < |replies| && !(0 < replies[k].reported <= length - Total(replies[..k])) ==>
              var left := length - Total(replies[..k]);
              WriteResult(length, replies)
              == (WriteShort, Total(replies[..k]) + (if replies[k].landed <= left then replies[k].landed else left))
    ensures k == |replies| ==> WriteResult(length, replies) == (Crashed, Total(replies))
    ensures WriteResult(0, replies) == (Written, 0)
  {
    WriteGoesOn(length, replies, k);
    assert replies[..|replies|] == replies;
  }

  class Log<R(!new)> {
    const codec: Codec<R>
    var file: bytes

    constructor (codec: Codec<R>)
      ensures this.codec == codec && file == []
    {
      this.codec := codec;
      file := [];
    }

    /**
     * writeAll: keep writing the rest until all of it is down, refuse an illegal
     * count. Running out of answers is a crash in the middle.
     */
    method WriteAll(text: bytes, replies: seq<Reply>) returns (status: WriteStatus, ghost landed: nat)
      modifies this`file
      ensures (status, landed) == WriteResult(|text|, replies)
      ensures file == old(file) + text[..landed]
    {
      hide WriteResult;
      var offset := 0;
      var calls := 0;
      assert replies[0..] == replies;
      while offset < |text|
        invariant 0 <= offset <= |text| && 0 <= calls <= |replies|
        invariant file == old(file) + text[..offset]
        invariant var (s, l) := WriteResult(|text| - offset, replies[calls..]);
                  WriteResult(|text|, replies) == (s, offset + l)
      {
        ghost var left := replies[calls..];
        WriteEnds(|text| - offset, left);
        if calls == |replies| {
          return Crashed, offset;
        }
        var n := replies[calls].reported;
        assert left[0] == replies[calls] && left[1..] == replies[calls + 1..];
        if n <= 0 || offset + n > |text| {
          var stray := if replies[calls].landed <= |text| - offset then replies[calls].landed else |text| - offset;
          TextGrows(old(file), text, offset, offset + stray);
          file := file + text[offset..offset + stray];
          return WriteShort, offset + stray;
        }
        WriteTurn(|text| - offset, left);
        TextGrows(old(file), text, offset, offset + n);
        file := file + text[offset..offset + n];
        offset := offset + n;
        calls := calls + 1;
      }
      WriteEnds(|text| - offset, replies[calls..]);
      return Written, offset;
    }

    /** append: the line is written to its last byte, then synced. */
    method Append(record: R, replies: seq<Reply>, synced: bool) returns (r: Result<(), LogError>, ghost landed: nat)
      modifies this`file
      ensures landed == WriteResult(|Line(codec, record)|, replies).1
      ensures file == old(file) + Line(codec, record)[..landed]
      ensures r == if WriteResult(|Line(codec, record)|, replies).0 != Written then Err(ShortWrite)
                   else if !synced then Err(NotSynced) else Ok(())
    {
      var status;
      status, landed := WriteAll(Line(codec, record), replies);
      if status != Written {
        return Err(ShortWrite), landed;
      }
      if !synced {
        return Err(NotSynced), landed;
      }
      return Ok(()), landed;
    }

    /** read: refuse a text that does not end a line, then parse line by line. */
    method Read() returns (r: Result<seq<R>, LogError>)
      ensures r == ReadIntentLog(codec, file)
    {
      hide ReadFrom;
      var records: seq<R> := [];
      var from := 0;
      NothingRead(ReadFrom(codec, file, 0));
      while from < |file|
        invariant 0 <= from <= |file|
        invariant ReadFrom(codec, file, 0) == Prepend(records, ReadFrom(codec, file, from))
        decreases |file| - from
      {
        var end := LineEnd(file, from);
        ReadTurn(codec, file, from, records);
        if end == |file| {
          return Err(Torn);
        }
        if end != from {
          var parsed := codec.parse(file[from..end]);
          if parsed.None? {
            return Err(Torn);
          }
          records := records + [parsed.value];
        }
        from := end + 1;
      }
      AllRead(codec, file, records);
      return Ok(records);
    }
  }
}
