/** One serial command: reading its transcript, and recomputing its result from the receipt
    (scripts/core_reboot_persistence_d1l.py). */
module Transcript {
  import opened Common
  import opened Json
  import opened Base64

  const MAX_RAW_LINE_BYTES: nat := 131_072

  /** One turn of the polling loop: the clock as the loop looks at it, and what reading yields. */
  datatype Poll = Poll(time: int, outcome: PollOutcome)

  datatype PollOutcome = Silence | Line(raw: Bytes) | Fault

  datatype RawLine = RawLine(observedAt: string, size: int, sha256: string, base64: string)

  /** `result` is None on the receipt an exception leaves behind. */
  datatype Receipt = Receipt(command: string, expectedCmd: string, rawLines: seq<RawLine>, result: Option<Dict>)

  /** What a line decodes to: no JSON object, an object, or an exception of the JSON parser (which
      nothing here catches). */
  datatype Parsed = Other | Object(fields: Dict) | ParserRaised

  /** The name a command answers with, the digest, the text a line is kept in, and decoding of a
      line as a JSON object. */
  datatype Codec = Codec(
    expectedName: string -> string, sha256: Bytes -> string, parse: Bytes -> Parsed,
    encode: Bytes -> string, decode: string -> Option<Bytes>)

  /** Lines survive being kept. */
  ghost predicate Faithful(codec: Codec) {
    forall raw: Bytes :: codec.decode(codec.encode(raw)) == Some(raw)
  }

  /** The program keeps lines in base64. */
  function WithBase64(expectedName: string -> string, sha256: Bytes -> string, parse: Bytes -> Parsed): Codec {
    Codec(expectedName, sha256, parse, (raw: Bytes) => Encode(raw), (text: string) => Decode(text))
  }

  lemma Base64IsFaithful(expectedName: string -> string, sha256: Bytes -> string, parse: Bytes -> Parsed)
    ensures Faithful(WithBase64(expectedName, sha256, parse))
  {
    var codec := WithBase64(expectedName, sha256, parse);
    forall raw: Bytes ensures codec.decode(codec.encode(raw)) == Some(raw) {
      DecodesWhatWasEncoded(raw);
    }
  }

  // ----- lines

  predicate TooLong(raw: Bytes) {
    |raw| > MAX_RAW_LINE_BYTES
  }

  /** A line within the limit that decodes to an object with the expected name. */
  predicate Matches(codec: Codec, expected: string, raw: Bytes) {
    && !TooLong(raw)
    && codec.parse(raw).Object?
    && PyEq(Get(codec.parse(raw).fields, "cmd"), Str(expected))
  }

  /** Looking at the line ends in an exception. */
  predicate Breaks(codec: Codec, raw: Bytes) {
    !TooLong(raw) && codec.parse(raw).ParserRaised?
  }

  function RawLineOf(codec: Codec, raw: Bytes, observedAt: string): RawLine {
    RawLine(observedAt, |raw|, codec.sha256(raw), codec.encode(raw))
  }

  datatype LineError = Base64Invalid | SizeMismatch | DigestMismatch

  method DecodeRawLine(codec: Codec, row: RawLine) returns (raw: Option<Bytes>, errors: seq<LineError>)
    ensures raw == codec.decode(row.base64)
    ensures errors == [] <==> raw.Some? && row.size == |raw.value| && row.sha256 == codec.sha256(raw.value)
  {
    raw := codec.decode(row.base64);
    if raw.None? {
      return None, [Base64Invalid];
    }
    errors := [];
    if row.size != |raw.value| { errors := errors + [SizeMismatch]; }
    if row.sha256 != codec.sha256(raw.value) { errors := errors + [DigestMismatch]; }
  }

  /** The row as its reader would have written it. */
  predicate Genuine(codec: Codec, row: RawLine) {
    var raw := codec.decode(row.base64);
    raw.Some? && row.size == |raw.value| && row.sha256 == codec.sha256(raw.value)
  }

  lemma WrittenIsGenuine(codec: Codec, raw: Bytes, observedAt: string)
    requires Faithful(codec)
    ensures var row := RawLineOf(codec, raw, observedAt);
            Genuine(codec, row) && codec.decode(row.base64) == Some(raw)
  {
    assert codec.decode(codec.encode(raw)) == Some(raw);
  }

  // ----- reading

  /** A read that yields something; an empty read is a timeout of the port. */
  predicate Reads(p: Poll) {
    p.outcome.Line? && p.outcome.raw != []
  }

  predicate ReadsMatch(codec: Codec, expected: string, p: Poll) {
    Reads(p) && Matches(codec, expected, p.outcome.raw)
  }

  /** The loop does not go on after this poll. */
  predicate Ends(codec: Codec, expected: string, p: Poll) {
    Raises(codec, p) || (Reads(p) && TooLong(p.outcome.raw)) || ReadsMatch(codec, expected, p)
  }

  /** The poll ends in an exception: of the port, or of the parser once the line is recorded. */
  predicate Raises(codec: Codec, p: Poll) {
    p.outcome.Fault? || (Reads(p) && Breaks(codec, p.outcome.raw))
  }

  /** Turns the loop takes from poll i on: until the deadline, or a poll that ends it. */
  function TurnsFrom(codec: Codec, expected: string, polls: seq<Poll>, deadline: int, i: nat): (n: nat)
    requires i <= |polls|
    ensures i + n <= |polls|
    decreases |polls| - i
  {
    if i == |polls| || polls[i].time >= deadline then 0
    else if Ends(codec, expected, polls[i]) then 1
    else 1 + TurnsFrom(codec, expected, polls, deadline, i + 1)
  }

  function Turns(codec: Codec, expected: string, polls: seq<Poll>, deadline: int): (n: nat)
    ensures n <= |polls|
  {
    TurnsFrom(codec, expected, polls, deadline, 0)
  }

  /** The lines read in the first k polls. */
  function LinesRead(polls: seq<Poll>, k: nat): seq<Bytes>
    requires k <= |polls|
  {
    if k == 0 then []
    else LinesRead(polls, k - 1) + if Reads(polls[k - 1]) then [polls[k - 1].outcome.raw] else []
  }

  function RowsRead(codec: Codec, lines: seq<Bytes>, now: nat -> string): seq<RawLine> {
    seq(|lines|, i requires 0 <= i < |lines| => RawLineOf(codec, lines[i], now(i)))
  }

  function TimeoutResult(expected: string): Dict {
    map["schema" := Int(1), "ok" := Bool(false), "cmd" := Str(expected), "code" := Str("TIMEOUT_OR_INVALID_RAW")]
  }

  function ResultAfter(codec: Codec, expected: string, polls: seq<Poll>, n: nat): Option<Dict>
    requires n <= |polls|
  {
    if n > 0 && ReadsMatch(codec, expected, polls[n - 1]) then Some(codec.parse(polls[n - 1].outcome.raw).fields)
    else if n > 0 && Raises(codec, polls[n - 1]) then None
    else Some(TimeoutResult(expected))
  }

  /** The receipt a read leaves. */
  function ReceiptOf(codec: Codec, command: string, polls: seq<Poll>, deadline: int, now: nat -> string): Receipt {
    var expected := codec.expectedName(command);
    var n := Turns(codec, expected, polls, deadline);
    Receipt(command, expected, RowsRead(codec, LinesRead(polls, n), now), ResultAfter(codec, expected, polls, n))
  }

  /** The loop: it ends at the deadline, at an overlong line, at a match or with an exception, which
      leaves a receipt without a result in the log. `polls` lists the turns it could take. */
  method ReadRawCommand(codec: Codec, command: string, polls: seq<Poll>, deadline: int, now: nat -> string)
    returns (receipt: Receipt, raised: bool)
    ensures receipt == ReceiptOf(codec, command, polls, deadline, now)
    ensures var n := Turns(codec, codec.expectedName(command), polls, deadline);
            raised <==> n > 0 && Raises(codec, polls[n - 1])
  {
    var expected := codec.expectedName(command);
    var lines: seq<RawLine>, result: Option<Dict> := [], None;
    var i := 0;
    raised := false;
    while i < |polls| && polls[i].time < deadline
      invariant 0 <= i <= |polls| && result.None? && !raised
      invariant Turns(codec, expected, polls, deadline) == i + TurnsFrom(codec, expected, polls, deadline, i)
      invariant i > 0 ==> !Ends(codec, expected, polls[i - 1])
      invariant lines == RowsRead(codec, LinesRead(polls, i), now)
    {
      var outcome := polls[i].outcome;
      i := i + 1;
      if outcome.Fault? {
        raised := true;
        break;
      }
      if outcome.Silence? || outcome.raw == [] {
        continue;
      }
      lines := lines + [RawLineOf(codec, outcome.raw, now(|lines|))];
      if TooLong(outcome.raw) {
        break;
      }
      var parsed := codec.parse(outcome.raw);
      if parsed.ParserRaised? {
        raised := true;
        break;
      }
      if parsed.Object? && PyEq(Get(parsed.fields, "cmd"), Str(expected)) {
        result := Some(parsed.fields);
        break;
      }
    }
    assert i == Turns(codec, expected, polls, deadline);
    if result.None? && !raised {
      result := Some(TimeoutResult(expected));
    }
    receipt := Receipt(command, expected, lines, result);
  }

  // ----- what the turns mean

  /** A matching line is read at poll k: time was left at every poll up to it, and no exception, overlong
      or matching line came before. */
  ghost predicate MatchedAt(codec: Codec, expected: string, polls: seq<Poll>, deadline: int, k: nat) {
    && k < |polls|
    && (forall j | 0 <= j <= k :: polls[j].time < deadline)
    && (forall j | 0 <= j < k :: !Ends(codec, expected, polls[j]))
    && ReadsMatch(codec, expected, polls[k])
  }

  lemma {:induction false} TurnsAre(codec: Codec, expected: string, polls: seq<Poll>, deadline: int, i: nat)
    requires i <= |polls|
    ensures var n := TurnsFrom(codec, expected, polls, deadline, i);
            && (forall j | i <= j < i + n :: polls[j].time < deadline)
            && (forall j | i <= j < i + n - 1 :: !Ends(codec, expected, polls[j]))
            && (i + n < |polls| && polls[i + n].time < deadline ==> n > 0 && Ends(codec, expected, polls[i + n - 1]))
    decreases |polls| - i
  {
    if i < |polls| && polls[i].time < deadline && !Ends(codec, expected, polls[i]) {
      TurnsAre(codec, expected, polls, deadline, i + 1);
    }
  }

  /** A matching line was read in time exactly when it is what the last turn read. */
  lemma MatchedIff(codec: Codec, expected: string, polls: seq<Poll>, deadline: int, k: nat)
    ensures MatchedAt(codec, expected, polls, deadline, k) <==>
            var n := Turns(codec, expected, polls, deadline);
            n == k + 1 && ReadsMatch(codec, expected, polls[k])
  {
    TurnsAre(codec, expected, polls, deadline, 0);
    var n := Turns(codec, expected, polls, deadline);
    if MatchedAt(codec, expected, polls, deadline, k) {
      if n > k + 1 {
        assert false;
      }
    }
  }

  // ----- recomputing

  datatype ReceiptError =
    | CommandMissing | ExpectedMismatch | RawLinesMissing | LineInvalid(index: nat, error: LineError)
    | LineTooLong(index: nat) | NotExactlyOneMatch | ResultDiffers

  /** The results among the rows: lines within the limit that decode and match. */
  function MatchedRows(codec: Codec, expected: string, rows: seq<RawLine>): seq<Dict> {
    if rows == [] then []
    else MatchedRows(codec, expected, rows[..|rows| - 1]) + MatchedRow(codec, expected, rows[|rows| - 1])
  }

  predicate RowAccepted(codec: Codec, row: RawLine) {
    Genuine(codec, row) && !TooLong(codec.decode(row.base64).value) && !RowBreaks(codec, row)
  }

  /** Recomputing from the row ends in an exception of the parser. */
  predicate RowBreaks(codec: Codec, row: RawLine) {
    codec.decode(row.base64).Some? && Breaks(codec, codec.decode(row.base64).value)
  }

  predicate SomeBreaks(codec: Codec, rows: seq<RawLine>) {
    exists i | 0 <= i < |rows| :: RowBreaks(codec, rows[i])
  }

  predicate RowsAccepted(codec: Codec, rows: seq<RawLine>) {
    forall i | 0 <= i < |rows| :: RowAccepted(codec, rows[i])
  }

  /** The result equals the one match. */
  predicate ReportsMatch(result: Option<Dict>, matched: seq<Dict>) {
    |matched| == 1 && result.Some? && ItemEq(Obj(result.value), Obj(matched[0]))
  }

  predicate ReceiptAccepted(codec: Codec, row: Receipt) {
    && row.command != "" && row.expectedCmd == codec.expectedName(row.command)
    && row.rawLines != [] && RowsAccepted(codec, row.rawLines)
    && ReportsMatch(row.result, MatchedRows(codec, row.expectedCmd, row.rawLines))
  }

  function LineErrors(index: nat, errors: seq<LineError>): seq<ReceiptError> {
    seq(|errors|, i requires 0 <= i < |errors| => LineInvalid(index, errors[i]))
  }

  function MatchedRow(codec: Codec, expected: string, row: RawLine): seq<Dict> {
    var raw := codec.decode(row.base64);
    if raw.Some? && Matches(codec, expected, raw.value) then [codec.parse(raw.value).fields] else []
  }

  /** One retained line. */
  method RecomputeRow(codec: Codec, expected: string, row: RawLine, index: nat)
    returns (raised: bool, matched: seq<Dict>, errors: seq<ReceiptError>)
    ensures raised <==> RowBreaks(codec, row)
    ensures !raised ==> (errors == [] <==> RowAccepted(codec, row))
    ensures !raised ==> matched == MatchedRow(codec, expected, row)
  {
    raised := false;
    var raw, lineErrors := DecodeRawLine(codec, row);
    errors, matched := LineErrors(index, lineErrors), [];
    if raw.None? || |raw.value| > MAX_RAW_LINE_BYTES {
      if raw.Some? { errors := errors + [LineTooLong(index)]; }
      return;
    }
    var parsed := codec.parse(raw.value);
    if parsed.ParserRaised? {
      return true, [], errors;
    }
    if parsed.Object? && PyEq(Get(parsed.fields, "cmd"), Str(expected)) {
      matched := [parsed.fields];
    }
  }

  lemma OneMoreRow(codec: Codec, expected: string, rows: seq<RawLine>, row: RawLine)
    ensures MatchedRows(codec, expected, rows + [row])
        == MatchedRows(codec, expected, rows) + MatchedRow(codec, expected, row)
    ensures RowsAccepted(codec, rows + [row]) <==> RowsAccepted(codec, rows) && RowAccepted(codec, row)
  {
    var all := rows + [row];
    assert all[..|rows|] == rows && all[|rows|] == row;
    if RowsAccepted(codec, all) {
      forall i | 0 <= i < |rows| ensures RowAccepted(codec, rows[i]) { assert RowAccepted(codec, all[i]); }
      assert RowAccepted(codec, all[|rows|]);
    }
  }

  lemma NextRow(codec: Codec, expected: string, rows: seq<RawLine>, k: nat)
    requires k < |rows|
    ensures MatchedRows(codec, expected, rows[..k + 1])
        == MatchedRows(codec, expected, rows[..k]) + MatchedRow(codec, expected, rows[k])
    ensures RowsAccepted(codec, rows[..k + 1]) <==> RowsAccepted(codec, rows[..k]) && RowAccepted(codec, rows[k])
  {
    OneMoreRow(codec, expected, rows[..k], rows[k]);
    assert rows[..k + 1] == rows[..k] + [rows[k]];
  }

  /** The rows in order, up to one that raises. */
  method RecomputeRows(codec: Codec, expected: string, rows: seq<RawLine>)
    returns (raised: bool, matched: seq<Dict>, errors: seq<ReceiptError>)
    ensures raised <==> SomeBreaks(codec, rows)
    ensures !raised ==> (errors == [] <==> RowsAccepted(codec, rows))
    ensures !raised ==> matched == MatchedRows(codec, expected, rows)
  {
    matched, errors := [], [];
    for k := 0 to |rows|
      invariant matched == MatchedRows(codec, expected, rows[..k])
      invariant errors == [] <==> RowsAccepted(codec, rows[..k])
      invariant forall i | 0 <= i < k :: !RowBreaks(codec, rows[i])
    {
      var breaks, found, rowErrors := RecomputeRow(codec, expected, rows[k], k);
      if breaks {
        return true, matched, errors;
      }
      NextRow(codec, expected, rows, k);
      matched, errors := matched + found, errors + rowErrors;
    }
    assert rows[..|rows|] == rows;
    raised := false;
  }

  method RecomputeRawCommand(codec: Codec, row: Receipt)
    returns (raised: bool, r: Option<Dict>, errors: seq<ReceiptError>)
    ensures raised <==> row.command != "" && SomeBreaks(codec, row.rawLines)
    ensures !raised && errors == [] <==> ReceiptAccepted(codec, row)
    ensures !raised && errors == [] ==> r == Some(MatchedRows(codec, row.expectedCmd, row.rawLines)[0])
  {
    raised := false;
    if row.command == "" {
      return false, None, [CommandMissing];
    }
    errors := if row.expectedCmd != codec.expectedName(row.command) then [ExpectedMismatch] else [];
    if row.rawLines == [] {
      return false, None, errors + [RawLinesMissing];
    }
    var breaks, matched, rowErrors := RecomputeRows(codec, row.expectedCmd, row.rawLines);
    if breaks {
      BrokenNotAccepted(codec, row.rawLines);
      return true, None, errors;
    }
    errors := errors + rowErrors;
    if |matched| != 1 {
      return false, None, errors + [NotExactlyOneMatch];
    }
    if row.result.None? || !ItemEq(Obj(row.result.value), Obj(matched[0])) {
      errors := errors + [ResultDiffers];
    }
    r := Some(matched[0]);
  }

  lemma BrokenNotAccepted(codec: Codec, rows: seq<RawLine>)
    requires SomeBreaks(codec, rows)
    ensures !RowsAccepted(codec, rows)
  {
    var i :| 0 <= i < |rows| && RowBreaks(codec, rows[i]);
    assert !RowAccepted(codec, rows[i]);
  }

  // ----- reading and recomputing agree

  function MatchedLines(codec: Codec, expected: string, lines: seq<Bytes>): seq<Dict> {
    if lines == [] then []
    else
      var raw := lines[|lines| - 1];
      MatchedLines(codec, expected, lines[..|lines| - 1])
      + if Matches(codec, expected, raw) then [codec.parse(raw).fields] else []
  }

  lemma {:induction false} RowsOfLines(codec: Codec, expected: string, lines: seq<Bytes>, now: nat -> string)
    requires Faithful(codec)
    ensures MatchedRows(codec, expected, RowsRead(codec, lines, now)) == MatchedLines(codec, expected, lines)
  {
    if lines != [] {
      var init := lines[..|lines| - 1];
      RowsOfLines(codec, expected, init, now);
      var rows := RowsRead(codec, lines, now);
      assert rows[..|rows| - 1] == RowsRead(codec, init, now);
      WrittenIsGenuine(codec, lines[|lines| - 1], now(|lines| - 1));
    }
  }

  predicate Usable(codec: Codec, raw: Bytes) {
    !TooLong(raw) && !Breaks(codec, raw)
  }

  lemma RowsOfLinesAccepted(codec: Codec, lines: seq<Bytes>, now: nat -> string)
    requires Faithful(codec)
    ensures RowsAccepted(codec, RowsRead(codec, lines, now)) <==> forall i | 0 <= i < |lines| :: Usable(codec, lines[i])
    ensures SomeBreaks(codec, RowsRead(codec, lines, now)) <==> exists i | 0 <= i < |lines| :: Breaks(codec, lines[i])
  {
    var rows := RowsRead(codec, lines, now);
    forall i | 0 <= i < |lines|
      ensures RowAccepted(codec, rows[i]) <==> Usable(codec, lines[i])
      ensures RowBreaks(codec, rows[i]) <==> Breaks(codec, lines[i])
    {
      WrittenIsGenuine(codec, lines[i], now(i));
      assert rows[i] == RawLineOf(codec, lines[i], now(i));
    }
    if RowsAccepted(codec, rows) {
      forall i | 0 <= i < |lines| ensures Usable(codec, lines[i]) { assert RowAccepted(codec, rows[i]); }
    }
  }

  /** Before the loop ends nothing matches, and nothing is too long or raises. */
  lemma {:induction false} NothingYet(codec: Codec, expected: string, polls: seq<Poll>, k: nat)
    requires k <= |polls| && forall j | 0 <= j < k :: !Ends(codec, expected, polls[j])
    ensures MatchedLines(codec, expected, LinesRead(polls, k)) == []
    ensures forall i | 0 <= i < |LinesRead(polls, k)| :: Usable(codec, LinesRead(polls, k)[i])
  {
    if k > 0 {
      NothingYet(codec, expected, polls, k - 1);
      assert !Ends(codec, expected, polls[k - 1]);
      var init, lines := LinesRead(polls, k - 1), LinesRead(polls, k);
      if Reads(polls[k - 1]) {
        assert lines == init + [polls[k - 1].outcome.raw];
        assert lines[..|lines| - 1] == init;
      } else {
        assert lines == init;
      }
    }
  }

  /** The matches in the whole transcript: the last line's, if it matches. */
  lemma TranscriptMatches(codec: Codec, expected: string, polls: seq<Poll>, deadline: int)
    ensures var n := Turns(codec, expected, polls, deadline);
            var lines := LinesRead(polls, n);
            if n > 0 && ReadsMatch(codec, expected, polls[n - 1])
            then MatchedLines(codec, expected, lines) == [codec.parse(polls[n - 1].outcome.raw).fields]
                 && lines != [] && forall i | 0 <= i < |lines| :: Usable(codec, lines[i])
            else MatchedLines(codec, expected, lines) == []
    ensures var n := Turns(codec, expected, polls, deadline);
            var lines := LinesRead(polls, n);
            (exists i | 0 <= i < |lines| :: Breaks(codec, lines[i]))
            <==> n > 0 && Reads(polls[n - 1]) && Breaks(codec, polls[n - 1].outcome.raw)
  {
    TurnsAre(codec, expected, polls, deadline, 0);
    var n := Turns(codec, expected, polls, deadline);
    if n > 0 {
      NothingYet(codec, expected, polls, n - 1);
      var init, lines := LinesRead(polls, n - 1), LinesRead(polls, n);
      if Reads(polls[n - 1]) {
        assert lines == init + [polls[n - 1].outcome.raw];
        assert lines[..|lines| - 1] == init && lines[|init|] == polls[n - 1].outcome.raw;
      } else {
        assert lines == init;
      }
    }
  }

  /** Acceptance, read off the last turn. */
  lemma AcceptedIffLastMatches(codec: Codec, command: string, polls: seq<Poll>, deadline: int, now: nat -> string)
    requires Faithful(codec) && command != ""
    ensures var expected := codec.expectedName(command);
            var n := Turns(codec, expected, polls, deadline);
            var receipt := ReceiptOf(codec, command, polls, deadline, now);
            var matched := MatchedRows(codec, expected, receipt.rawLines);
            && (ReceiptAccepted(codec, receipt) <==> n > 0 && ReadsMatch(codec, expected, polls[n - 1]))
            && (n > 0 && ReadsMatch(codec, expected, polls[n - 1]) ==>
                  && receipt.result == Some(codec.parse(polls[n - 1].outcome.raw).fields)
                  && |matched| == 1 && receipt.result == Some(matched[0]))
  {
    var expected := codec.expectedName(command);
    var n := Turns(codec, expected, polls, deadline);
    var lines := LinesRead(polls, n);
    TranscriptMatches(codec, expected, polls, deadline);
    RowsOfLines(codec, expected, lines, now);
    RowsOfLinesAccepted(codec, lines, now);
  }

  /** For every stream of lines and every clock: the recomputation accepts the receipt of a read exactly
      when a matching line was read before the deadline, and then recomputes the result the receipt
      holds, the one on that line. */
  lemma ReadAndRecomputeAgree(codec: Codec, command: string, polls: seq<Poll>, deadline: int, now: nat -> string)
    requires Faithful(codec) && command != ""
    ensures ReceiptAccepted(codec, ReceiptOf(codec, command, polls, deadline, now))
            <==> exists k: nat :: MatchedAt(codec, codec.expectedName(command), polls, deadline, k)
    ensures forall k: nat | MatchedAt(codec, codec.expectedName(command), polls, deadline, k) ::
              var receipt := ReceiptOf(codec, command, polls, deadline, now);
              && receipt.result == Some(codec.parse(polls[k].outcome.raw).fields)
              && MatchedRows(codec, receipt.expectedCmd, receipt.rawLines) == [receipt.result.value]
  {
    var expected := codec.expectedName(command);
    var n := Turns(codec, expected, polls, deadline);
    AcceptedIffLastMatches(codec, command, polls, deadline, now);
    forall k: nat
      ensures MatchedAt(codec, expected, polls, deadline, k) <==> n == k + 1 && ReadsMatch(codec, expected, polls[k])
    {
      MatchedIff(codec, expected, polls, deadline, k);
    }
    if n > 0 && ReadsMatch(codec, expected, polls[n - 1]) {
      var k: nat := n - 1;
      assert MatchedAt(codec, expected, polls, deadline, k);
    }
  }

  /** A parser exception during the read repeats: recomputing the receipt it left raises exactly when
      the last line read raised. */
  lemma ExceptionsRepeat(codec: Codec, command: string, polls: seq<Poll>, deadline: int, now: nat -> string)
    requires Faithful(codec)
    ensures var n := Turns(codec, codec.expectedName(command), polls, deadline);
            SomeBreaks(codec, ReceiptOf(codec, command, polls, deadline, now).rawLines)
            <==> n > 0 && Reads(polls[n - 1]) && Breaks(codec, polls[n - 1].outcome.raw)
  {
    var expected := codec.expectedName(command);
    TranscriptMatches(codec, expected, polls, deadline);
    RowsOfLinesAccepted(codec, LinesRead(polls, Turns(codec, expected, polls, deadline)), now);
  }

  predicate SameDigests(a: seq<RawLine>, b: seq<RawLine>) {
    |a| == |b| && forall i | 0 <= i < |a| :: a[i].sha256 == b[i].sha256
  }

  /** The bytes kept in the rows. */
  function KeptBytes(codec: Codec, rows: seq<RawLine>): set<Bytes> {
    set row | row in rows && codec.decode(row.base64).Some? :: codec.decode(row.base64).value
  }

  lemma {:induction false} SameDigestsSameMatches(codec: Codec, expected: string, a: seq<RawLine>, b: seq<RawLine>)
    requires NoCollision(codec.sha256, KeptBytes(codec, a), KeptBytes(codec, b))
    requires RowsAccepted(codec, a) && RowsAccepted(codec, b) && SameDigests(a, b)
    ensures MatchedRows(codec, expected, a) == MatchedRows(codec, expected, b)
  {
    if a != [] {
      var x, y := a[..|a| - 1], b[..|b| - 1];
      assert RowsAccepted(codec, x) && RowsAccepted(codec, y) by {
        forall i | 0 <= i < |x| ensures RowAccepted(codec, x[i]) && RowAccepted(codec, y[i]) {
          assert RowAccepted(codec, a[i]) && RowAccepted(codec, b[i]);
        }
      }
      assert KeptBytes(codec, x) <= KeptBytes(codec, a) && KeptBytes(codec, y) <= KeptBytes(codec, b);
      SameDigestsSameMatches(codec, expected, x, y);
      assert a[|a| - 1] in a && b[|b| - 1] in b;
      assert RowAccepted(codec, a[|a| - 1]) && RowAccepted(codec, b[|b| - 1]);
    }
  }

  /** Two accepted receipts for one command whose lines have the same digests report equal results,
      unless the digest collides on those lines. */
  lemma DigestsPinResult(codec: Codec, a: Receipt, b: Receipt)
    requires NoCollision(codec.sha256, KeptBytes(codec, a.rawLines), KeptBytes(codec, b.rawLines))
    requires ReceiptAccepted(codec, a) && ReceiptAccepted(codec, b)
    requires a.command == b.command && SameDigests(a.rawLines, b.rawLines)
    ensures ItemEq(Obj(a.result.value), Obj(b.result.value))
  {
    SameDigestsSameMatches(codec, a.expectedCmd, a.rawLines, b.rawLines);
  }
}
