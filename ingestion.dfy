/** The script's loop over the rows of the sheet: embed each row's text,
    skip the row when no embedding comes back, otherwise build its document
    and submit it to the index, carrying on whatever the index answers. */
module Ingestion {
  import opened Wrappers
  import opened RowToDocument

  /** The `_id` of an index answer: the key is missing, its value is null,
      or it holds a text. */
  datatype IdField = NoIdKey | NullId | IdText(text: string)

  /** What `client.index(index=..., document=...)` does: raise, or answer
      with an `_id` field. */
  datatype IndexResponse = IndexRaised | IndexResponded(id: IdField)

  /** The remote services and the foreign parser the loop calls, as
      functions: `infer(i)(model_id, text)` for the inference endpoint's
      answer to the call made for row `i`, `literalEval` for
      `ast.literal_eval` (`None` when it raises) and `index(i)` for the
      answer to the index call made for row `i`. Each row makes at most one
      call of each kind; keying the remote answers by row lets two rows with
      the same text be answered differently. */
  datatype Services = Services(
    infer: nat -> (string, string) -> InferResponse,
    literalEval: string -> Option<seq<string>>,
    index: nat -> IndexResponse)

  /** One index call: the row's position in the sheet and the document. */
  datatype Submission = Submission(row: nat, doc: Document)

  /** The messages the loop prints. */
  datatype Event =
    | EmbeddingError        // generate_embedding caught an exception
    | Skipped(text: string) // the row was skipped; its embedding text
    | PhoneParseError       // parse_phones caught an exception
    | MissingId(row: nat)   // the index answer's `_id` was null or ""
    | IndexError(row: nat)  // the index call, or reading its `_id`, raised

  /** The text the loop embeds for a row. */
  function RowText(row: Row): string
  {
    EmbeddingText(Compose(row))
  }

  /** How `generate_embedding` ends for a row. */
  function RowAttempt(row: Row, infer: (string, string) -> InferResponse): Attempt
  {
    EmbeddingAttempt(infer(ModelId, RowText(row)))
  }

  /** The embedding the loop obtains for a row: what `generate_embedding`
      returns on the row's text, `infer` being the endpoint as it answers
      that row's call. */
  function RowEmbedding(row: Row, infer: (string, string) -> InferResponse): Option<Embedding>
  {
    RowAttempt(row, infer).Returned()
  }

  /** The index calls row `i` makes: none when it has no embedding. */
  function RowSubmissions(i: nat, row: Row, services: Services): seq<Submission>
  {
    match RowEmbedding(row, services.infer(i))
    case None => []
    case Some(e) => [Submission(i, BuildDocument(row, e, services.literalEval))]
  }

  /** Whether an index answer ends in the `except` branch: the call raised,
      or reading `response['_id']` raised a `KeyError`. */
  predicate IndexFails(response: IndexResponse)
  {
    response.IndexRaised? || response.id.NoIdKey?
  }

  /** Whether `not response['_id']` holds for an answer that has the key. */
  predicate IdIsFalsy(id: IdField)
  {
    id.NullId? || id == IdText("")
  }

  /** What the loop prints after the index call for row `i`. */
  function IndexEvents(i: nat, response: IndexResponse): seq<Event>
  {
    if IndexFails(response) then [IndexError(i)]
    else if IdIsFalsy(response.id) then [MissingId(i)]
    else []
  }

  /** What the loop prints for row `i`, in order. */
  function RowEvents(i: nat, row: Row, services: Services): seq<Event>
  {
    match RowAttempt(row, services.infer(i))
    case Raised => [EmbeddingError, Skipped(RowText(row))]
    case NullValue => [Skipped(RowText(row))]
    case Embedded(_) =>
      (if PhoneParseFails(row.phones, services.literalEval) then [PhoneParseError] else [])
      + IndexEvents(i, services.index(i))
  }

  /** The index calls made for `rows`, in order. */
  function Submitted(rows: seq<Row>, services: Services): seq<Submission>
    decreases |rows|
  {
    if rows == [] then []
    else
      var n := |rows| - 1;
      Submitted(rows[..n], services) + RowSubmissions(n, rows[n], services)
  }

  /** Everything the loop prints for `rows`, in order. */
  function Log(rows: seq<Row>, services: Services): seq<Event>
    decreases |rows|
  {
    if rows == [] then []
    else
      var n := |rows| - 1;
      Log(rows[..n], services) + RowEvents(n, rows[n], services)
  }

  /** The loop of lines 80-124: its index calls and its printed messages. */
  method Ingest(rows: seq<Row>, services: Services) returns (submitted: seq<Submission>, log: seq<Event>)
    ensures submitted == Submitted(rows, services)
    ensures log == Log(rows, services)
  {
    submitted, log := [], [];
    for i := 0 to |rows|
      invariant submitted == Submitted(rows[..i], services)
      invariant log == Log(rows[..i], services)
    {
      assert rows[..i + 1][..i] == rows[..i];
      var row := rows[i];
      var text := RowText(row);
      var attempt := RowAttempt(row, services.infer(i));
      if attempt.Raised? {
        log := log + [EmbeddingError];
      }
      if !attempt.Embedded? {
        log := log + [Skipped(text)];
        continue;
      }
      var document := BuildDocument(row, attempt.embedding, services.literalEval);
      if PhoneParseFails(row.phones, services.literalEval) {
        log := log + [PhoneParseError];
      }
      submitted := submitted + [Submission(i, document)];
      var response := services.index(i);
      if IndexFails(response) {
        log := log + [IndexError(i)];
      } else if IdIsFalsy(response.id) {
        log := log + [MissingId(i)];
      }
    }
    assert rows[..|rows|] == rows;
  }

  /** No row is submitted twice: there are at most as many index calls as
      rows. */
  lemma {:induction false} SubmittedAtMostRows(rows: seq<Row>, services: Services)
    ensures |Submitted(rows, services)| <= |rows|
    decreases |rows|
  {
    if rows != [] {
      SubmittedAtMostRows(rows[..|rows| - 1], services);
    }
  }

  /** `submission` is the index call for a row of `rows` that got an
      embedding: it carries that row's document, whose embedding is exactly
      the generated one. */
  predicate SubmissionOfRow(rows: seq<Row>, services: Services, submission: Submission)
  {
    submission.row < |rows|
    && RowEmbedding(rows[submission.row], services.infer(submission.row)).Some?
    && submission.doc == BuildDocument(rows[submission.row], RowEmbedding(rows[submission.row], services.infer(submission.row)).value, services.literalEval)
    && submission.doc.embedding == RowEmbedding(rows[submission.row], services.infer(submission.row)).value
  }

  /** Every index call comes from a row that got an embedding, carries that
      row's document with exactly the generated embedding, and the calls
      follow the order of the rows. */
  lemma {:induction false} SubmittedSound(rows: seq<Row>, services: Services)
    ensures forall k :: 0 <= k < |Submitted(rows, services)| ==>
      SubmissionOfRow(rows, services, Submitted(rows, services)[k])
    ensures forall a, b :: 0 <= a < b < |Submitted(rows, services)| ==>
      Submitted(rows, services)[a].row < Submitted(rows, services)[b].row
    decreases |rows|
  {
    if rows != [] {
      var n := |rows| - 1;
      var prefix := rows[..n];
      SubmittedSound(prefix, services);
      var s := Submitted(rows, services);
      var p := Submitted(prefix, services);
      assert s == p + RowSubmissions(n, rows[n], services);
      forall k | 0 <= k < |p| ensures s[k] == p[k] && p[k].row < n && SubmissionOfRow(rows, services, p[k]) {
        assert SubmissionOfRow(prefix, services, p[k]);
        assert rows[p[k].row] == prefix[p[k].row];
      }
      if |s| > |p| {
        assert s[|p|].row == n;
      }
    }
  }

  /** Every row that gets an embedding is submitted. */
  lemma {:induction false} SubmittedComplete(rows: seq<Row>, services: Services, i: nat)
    requires i < |rows|
    requires RowEmbedding(rows[i], services.infer(i)).Some?
    ensures exists k :: 0 <= k < |Submitted(rows, services)| && Submitted(rows, services)[k].row == i
    decreases |rows|
  {
    var n := |rows| - 1;
    var s := Submitted(rows, services);
    var p := Submitted(rows[..n], services);
    assert s == p + RowSubmissions(n, rows[n], services);
    if i == n {
      assert s[|p|].row == i;
    } else {
      assert rows[..n][i] == rows[i];
      SubmittedComplete(rows[..n], services, i);
      var k :| 0 <= k < |p| && p[k].row == i;
      assert s[k] == p[k];
    }
  }

  /** What the index answers has no bearing on which documents are
      submitted: a failed index call does not stop the rows after it. */
  lemma {:induction false} SubmittedIgnoresIndexing(rows: seq<Row>, services: Services, other: nat -> IndexResponse)
    ensures Submitted(rows, services) == Submitted(rows, services.(index := other))
    decreases |rows|
  {
    if rows != [] {
      SubmittedIgnoresIndexing(rows[..|rows| - 1], services, other);
    }
  }

  /** The messages for row `j` report an index error for row `i` only when
      `i` is `j`, and then exactly when the row was submitted and its index
      call failed. */
  lemma RowEventsIndexError(j: nat, row: Row, services: Services, i: nat)
    ensures IndexError(i) in RowEvents(j, row, services) <==>
      i == j && RowEmbedding(row, services.infer(j)).Some? && IndexFails(services.index(j))
  {
    if RowAttempt(row, services.infer(j)).Embedded? {
      var head := if PhoneParseFails(row.phones, services.literalEval) then [PhoneParseError] else [];
      assert RowEvents(j, row, services) == head + IndexEvents(j, services.index(j));
    }
  }

  /** An index error is reported for row `i` exactly when that row was
      submitted and its index call failed. */
  lemma {:induction false} LogIndexErrors(rows: seq<Row>, services: Services, i: nat)
    ensures IndexError(i) in Log(rows, services) <==>
      i < |rows| && RowEmbedding(rows[i], services.infer(i)).Some? && IndexFails(services.index(i))
    decreases |rows|
  {
    if rows != [] {
      var n := |rows| - 1;
      LogIndexErrors(rows[..n], services, i);
      LogSnoc(rows, services, IndexError(i));
      RowEventsIndexError(n, rows[n], services, i);
      if i < n {
        assert rows[..n][i] == rows[i];
      }
    }
  }

  /** The messages for row `j` report a missing id for row `i` only when
      `i` is `j`, and then exactly when the row was submitted and its `_id`
      is null or "". */
  lemma RowEventsMissingId(j: nat, row: Row, services: Services, i: nat)
    ensures MissingId(i) in RowEvents(j, row, services) <==>
      i == j && RowEmbedding(row, services.infer(j)).Some?
      && !IndexFails(services.index(j)) && IdIsFalsy(services.index(j).id)
  {
    if RowAttempt(row, services.infer(j)).Embedded? {
      var head := if PhoneParseFails(row.phones, services.literalEval) then [PhoneParseError] else [];
      assert RowEvents(j, row, services) == head + IndexEvents(j, services.index(j));
    }
  }

  /** The missing-id warning is printed for row `i` exactly when that row
      was submitted and its index answer has an `_id` that is null or "". */
  lemma {:induction false} LogMissingIds(rows: seq<Row>, services: Services, i: nat)
    ensures MissingId(i) in Log(rows, services) <==>
      i < |rows| && RowEmbedding(rows[i], services.infer(i)).Some?
      && !IndexFails(services.index(i)) && IdIsFalsy(services.index(i).id)
    decreases |rows|
  {
    if rows != [] {
      var n := |rows| - 1;
      LogMissingIds(rows[..n], services, i);
      LogSnoc(rows, services, MissingId(i));
      RowEventsMissingId(n, rows[n], services, i);
      if i < n {
        assert rows[..n][i] == rows[i];
      }
    }
  }

  /** Number of rows reported as skipped. */
  function SkipCount(log: seq<Event>): nat
    decreases |log|
  {
    if log == [] then 0 else (if log[0].Skipped? then 1 else 0) + SkipCount(log[1..])
  }

  lemma {:induction false} SkipCountAppend(a: seq<Event>, b: seq<Event>)
    ensures SkipCount(a + b) == SkipCount(a) + SkipCount(b)
    decreases |a|
  {
    if a == [] {
      assert a + b == b;
    } else {
      assert (a + b)[1..] == a[1..] + b;
      SkipCountAppend(a[1..], b);
    }
  }

  /** The number of skip messages and the number of index calls add up to
      the number of rows. */
  lemma {:induction false} EveryRowSubmittedOrSkipped(rows: seq<Row>, services: Services)
    ensures |Submitted(rows, services)| + SkipCount(Log(rows, services)) == |rows|
    decreases |rows|
  {
    if rows != [] {
      var n := |rows| - 1;
      EveryRowSubmittedOrSkipped(rows[..n], services);
      SkipCountAppend(Log(rows[..n], services), RowEvents(n, rows[n], services));
      RowSubmittedOrSkippedOnce(n, rows[n], services);
    }
  }

  /** One row gives either one index call or one skip message. */
  lemma RowSubmittedOrSkippedOnce(i: nat, row: Row, services: Services)
    ensures |RowSubmissions(i, row, services)| + SkipCount(RowEvents(i, row, services)) == 1
  {
    var tail := IndexEvents(i, services.index(i));
    assert SkipCount(tail) == 0;
    match RowAttempt(row, services.infer(i))
    case Raised =>
      SkipCountAppend([EmbeddingError], [Skipped(RowText(row))]);
      assert [EmbeddingError] + [Skipped(RowText(row))] == [EmbeddingError, Skipped(RowText(row))];
    case NullValue =>
    case Embedded(_) =>
      var head := if PhoneParseFails(row.phones, services.literalEval) then [PhoneParseError] else [];
      SkipCountAppend(head, tail);
  }

  /** How many times `e` is printed in `log`. */
  function EventCount(e: Event, log: seq<Event>): nat
    decreases |log|
  {
    if log == [] then 0 else (if log[0] == e then 1 else 0) + EventCount(e, log[1..])
  }

  lemma {:induction false} EventCountAppend(e: Event, a: seq<Event>, b: seq<Event>)
    ensures EventCount(e, a + b) == EventCount(e, a) + EventCount(e, b)
    decreases |a|
  {
    if a == [] {
      assert a + b == b;
    } else {
      assert (a + b)[1..] == a[1..] + b;
      EventCountAppend(e, a[1..], b);
    }
  }

  /** A message is printed exactly when it is counted. */
  lemma {:induction false} EventCountPositive(e: Event, log: seq<Event>)
    ensures e in log <==> EventCount(e, log) > 0
    decreases |log|
  {
    if log != [] {
      EventCountPositive(e, log[1..]);
      assert log == [log[0]] + log[1..];
    }
  }

  /** The embedding call for row `i` raised. */
  predicate EmbeddingRaised(i: nat, row: Row, services: Services)
  {
    RowAttempt(row, services.infer(i)).Raised?
  }

  /** Row `i` got an embedding and its phone cell does not evaluate. */
  predicate PhoneParseReported(i: nat, row: Row, services: Services)
  {
    RowEmbedding(row, services.infer(i)).Some? && PhoneParseFails(row.phones, services.literalEval)
  }

  /** Number of rows whose embedding call raised. */
  function RaisedRows(rows: seq<Row>, services: Services): nat
    decreases |rows|
  {
    if rows == [] then 0
    else
      var n := |rows| - 1;
      RaisedRows(rows[..n], services) + (if EmbeddingRaised(n, rows[n], services) then 1 else 0)
  }

  /** Number of rows that got an embedding but whose phone cell does not
      evaluate. */
  function PhoneFailureRows(rows: seq<Row>, services: Services): nat
    decreases |rows|
  {
    if rows == [] then 0
    else
      var n := |rows| - 1;
      PhoneFailureRows(rows[..n], services) + (if PhoneParseReported(n, rows[n], services) then 1 else 0)
  }

  /** Some row's embedding call raised exactly when the count is positive. */
  lemma {:induction false} RaisedRowsPositive(rows: seq<Row>, services: Services)
    ensures RaisedRows(rows, services) > 0 <==>
      exists i :: 0 <= i < |rows| && EmbeddingRaised(i, rows[i], services)
    decreases |rows|
  {
    if rows != [] {
      var n := |rows| - 1;
      RaisedRowsPositive(rows[..n], services);
      forall i | 0 <= i < n
        ensures EmbeddingRaised(i, rows[..n][i], services) == EmbeddingRaised(i, rows[i], services)
      {
        assert rows[..n][i] == rows[i];
      }
    }
  }

  /** Some row reports a phone parse failure exactly when the count is
      positive. */
  lemma {:induction false} PhoneFailureRowsPositive(rows: seq<Row>, services: Services)
    ensures PhoneFailureRows(rows, services) > 0 <==>
      exists i :: 0 <= i < |rows| && PhoneParseReported(i, rows[i], services)
    decreases |rows|
  {
    if rows != [] {
      var n := |rows| - 1;
      PhoneFailureRowsPositive(rows[..n], services);
      forall i | 0 <= i < n
        ensures PhoneParseReported(i, rows[..n][i], services) == PhoneParseReported(i, rows[i], services)
      {
        assert rows[..n][i] == rows[i];
      }
    }
  }

  /** A row's messages hold one embedding error exactly when its embedding
      call raised, and none otherwise. */
  lemma RowEventsEmbeddingError(i: nat, row: Row, services: Services)
    ensures EventCount(EmbeddingError, RowEvents(i, row, services)) ==
      (if EmbeddingRaised(i, row, services) then 1 else 0)
    ensures EmbeddingError in RowEvents(i, row, services) <==> EmbeddingRaised(i, row, services)
  {
    var events := RowEvents(i, row, services);
    var tail := IndexEvents(i, services.index(i));
    assert EventCount(EmbeddingError, tail) == 0;
    match RowAttempt(row, services.infer(i))
    case Raised =>
      EventCountAppend(EmbeddingError, [EmbeddingError], [Skipped(RowText(row))]);
      assert [EmbeddingError] + [Skipped(RowText(row))] == events;
    case NullValue =>
    case Embedded(_) =>
      var head := if PhoneParseFails(row.phones, services.literalEval) then [PhoneParseError] else [];
      EventCountAppend(EmbeddingError, head, tail);
    EventCountPositive(EmbeddingError, events);
  }

  /** A row's messages hold one phone parse error exactly when the row got an
      embedding and its phone cell does not evaluate, and none otherwise: a
      skipped row's phones are never parsed. */
  lemma RowEventsPhoneParseError(i: nat, row: Row, services: Services)
    ensures EventCount(PhoneParseError, RowEvents(i, row, services)) ==
      (if PhoneParseReported(i, row, services) then 1 else 0)
    ensures PhoneParseError in RowEvents(i, row, services) <==> PhoneParseReported(i, row, services)
  {
    var events := RowEvents(i, row, services);
    var tail := IndexEvents(i, services.index(i));
    assert EventCount(PhoneParseError, tail) == 0;
    match RowAttempt(row, services.infer(i))
    case Raised =>
      EventCountAppend(PhoneParseError, [EmbeddingError], [Skipped(RowText(row))]);
      assert [EmbeddingError] + [Skipped(RowText(row))] == events;
    case NullValue =>
    case Embedded(_) =>
      var head := if PhoneParseFails(row.phones, services.literalEval) then [PhoneParseError] else [];
      EventCountAppend(PhoneParseError, head, tail);
    EventCountPositive(PhoneParseError, events);
  }

  /** One embedding error is printed per row whose embedding call raised,
      so one is printed exactly when some row's call raised. */
  lemma {:induction false} LogEmbeddingErrors(rows: seq<Row>, services: Services)
    ensures EventCount(EmbeddingError, Log(rows, services)) == RaisedRows(rows, services)
    ensures EmbeddingError in Log(rows, services) <==>
      exists i :: 0 <= i < |rows| && EmbeddingRaised(i, rows[i], services)
    decreases |rows|
  {
    if rows != [] {
      var n := |rows| - 1;
      LogEmbeddingErrors(rows[..n], services);
      EventCountAppend(EmbeddingError, Log(rows[..n], services), RowEvents(n, rows[n], services));
      RowEventsEmbeddingError(n, rows[n], services);
    }
    EventCountPositive(EmbeddingError, Log(rows, services));
    RaisedRowsPositive(rows, services);
  }

  /** One phone parse error is printed per row that got an embedding but
      whose phone cell does not evaluate, so one is printed exactly when
      some such row exists. */
  lemma {:induction false} LogPhoneParseErrors(rows: seq<Row>, services: Services)
    ensures EventCount(PhoneParseError, Log(rows, services)) == PhoneFailureRows(rows, services)
    ensures PhoneParseError in Log(rows, services) <==>
      exists i :: 0 <= i < |rows| && PhoneParseReported(i, rows[i], services)
    decreases |rows|
  {
    if rows != [] {
      var n := |rows| - 1;
      LogPhoneParseErrors(rows[..n], services);
      EventCountAppend(PhoneParseError, Log(rows[..n], services), RowEvents(n, rows[n], services));
      RowEventsPhoneParseError(n, rows[n], services);
    }
    EventCountPositive(PhoneParseError, Log(rows, services));
    PhoneFailureRowsPositive(rows, services);
  }

  /** Row `row` has no embedding and `t` is its embedding text. */
  predicate SkippedWith(row: Row, infer: (string, string) -> InferResponse, t: string)
  {
    RowEmbedding(row, infer).None? && RowText(row) == t
  }

  /** The messages for one row report a skip exactly when the row has no
      embedding, and then with that row's text. */
  lemma RowEventsSkipped(i: nat, row: Row, services: Services, t: string)
    ensures Skipped(t) in RowEvents(i, row, services) <==> SkippedWith(row, services.infer(i), t)
  {
    if RowAttempt(row, services.infer(i)).Embedded? {
      var head := if PhoneParseFails(row.phones, services.literalEval) then [PhoneParseError] else [];
      assert RowEvents(i, row, services) == head + IndexEvents(i, services.index(i));
    }
  }

  /** The log of the rows is the log of all rows but the last, then the
      last row's messages. */
  lemma LogSnoc(rows: seq<Row>, services: Services, e: Event)
    requires rows != []
    ensures e in Log(rows, services) <==>
      e in Log(rows[..|rows| - 1], services) || e in RowEvents(|rows| - 1, rows[|rows| - 1], services)
  {
  }

  /** Every skip message belongs to a row without an embedding. */
  lemma {:induction false} LogSkippedSound(rows: seq<Row>, services: Services, t: string)
    requires Skipped(t) in Log(rows, services)
    ensures exists i :: 0 <= i < |rows| && SkippedWith(rows[i], services.infer(i), t)
    decreases |rows|
  {
    var n := |rows| - 1;
    LogSnoc(rows, services, Skipped(t));
    if Skipped(t) in Log(rows[..n], services) {
      LogSkippedSound(rows[..n], services, t);
      var i :| 0 <= i < n && SkippedWith(rows[..n][i], services.infer(i), t);
      assert rows[..n][i] == rows[i];
    } else {
      RowEventsSkipped(n, rows[n], services, t);
    }
  }

  /** Every row without an embedding has its skip message printed. */
  lemma {:induction false} LogSkippedComplete(rows: seq<Row>, services: Services, i: nat, t: string)
    requires i < |rows| && SkippedWith(rows[i], services.infer(i), t)
    ensures Skipped(t) in Log(rows, services)
    decreases |rows|
  {
    var n := |rows| - 1;
    LogSnoc(rows, services, Skipped(t));
    if i < n {
      assert rows[..n][i] == rows[i];
      LogSkippedComplete(rows[..n], services, i, t);
    } else {
      RowEventsSkipped(n, rows[n], services, t);
    }
  }

  /** A skip message with text `t` is printed exactly when some row has no
      embedding and `t` is that row's embedding text. A submitted row's own
      messages never report a skip (`RowEventsSkipped`); its text can still
      appear in a skip message printed for another row with the same text. */
  lemma LogSkipped(rows: seq<Row>, services: Services, t: string)
    ensures Skipped(t) in Log(rows, services) <==>
      exists i :: 0 <= i < |rows| && SkippedWith(rows[i], services.infer(i), t)
  {
    if Skipped(t) in Log(rows, services) {
      LogSkippedSound(rows, services, t);
    }
    if exists i :: 0 <= i < |rows| && SkippedWith(rows[i], services.infer(i), t) {
      var i :| 0 <= i < |rows| && SkippedWith(rows[i], services.infer(i), t);
      LogSkippedComplete(rows, services, i, t);
    }
  }

  /** No row is both submitted and reported as skipped: the rows whose index
      call is made are exactly those with an embedding, and a row is
      reported as skipped exactly when it has none. */
  lemma RowSubmittedOrSkipped(rows: seq<Row>, services: Services, i: nat)
    requires i < |rows|
    ensures (exists k :: 0 <= k < |Submitted(rows, services)| && Submitted(rows, services)[k].row == i)
      <==> RowEmbedding(rows[i], services.infer(i)).Some?
    ensures RowEmbedding(rows[i], services.infer(i)).None? ==> Skipped(RowText(rows[i])) in Log(rows, services)
  {
    SubmittedSound(rows, services);
    if RowEmbedding(rows[i], services.infer(i)).Some? {
      SubmittedComplete(rows, services, i);
    }
    LogSkipped(rows, services, RowText(rows[i]));
  }

  /** When every row gets an embedding, every row is submitted, one index
      call per row in row order. */
  lemma {:induction false} AllEmbeddedAllSubmitted(rows: seq<Row>, services: Services)
    requires forall i :: 0 <= i < |rows| ==> RowEmbedding(rows[i], services.infer(i)).Some?
    ensures |Submitted(rows, services)| == |rows|
    ensures forall k :: 0 <= k < |rows| ==> Submitted(rows, services)[k].row == k
    decreases |rows|
  {
    if rows != [] {
      var n := |rows| - 1;
      forall i | 0 <= i < n ensures RowEmbedding(rows[..n][i], services.infer(i)).Some? {
        assert rows[..n][i] == rows[i];
      }
      AllEmbeddedAllSubmitted(rows[..n], services);
      assert RowEmbedding(rows[n], services.infer(n)).Some?;
    }
  }

  /** Three rows that all get an embedding, the second with a phone list
      that does not evaluate: all three are submitted, in order, the second
      with no phone numbers, and the parse failure is reported. */
  lemma ThreeRowsExample(rows: seq<Row>, services: Services)
    requires |rows| == 3
    requires forall i, m, t :: services.infer(i)(m, t) == InferResponded([Vector([1.0])])
    requires rows[1].phones == Some("['050-1234567'")
    requires services.literalEval("['050-1234567'") == None
    ensures |Submitted(rows, services)| == 3
    ensures forall k :: 0 <= k < 3 ==> Submitted(rows, services)[k].row == k
    ensures Submitted(rows, services)[1].doc.phoneNumbers == []
    ensures PhoneParseError in Log(rows, services)
  {
    forall i | 0 <= i < |rows| ensures RowEmbedding(rows[i], services.infer(i)).Some? {
      assert RowAttempt(rows[i], services.infer(i)) == Embedded([1.0]);
    }
    AllEmbeddedAllSubmitted(rows, services);
    SubmittedSound(rows, services);
    var s := Submitted(rows, services);
    assert SubmissionOfRow(rows, services, s[1]);
    assert Log(rows, services) == Log(rows[..2], services) + RowEvents(2, rows[2], services);
    assert rows[..2][1] == rows[1];
    assert Log(rows[..2], services) == Log(rows[..2][..1], services) + RowEvents(1, rows[1], services);
    assert RowAttempt(rows[1], services.infer(1)) == Embedded([1.0]);
  }
}
