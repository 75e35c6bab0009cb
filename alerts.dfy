/**
 * The processed-file marker (`ultimo_arquivo.txt`) and the decision core of
 * one batch cycle (`enviar_alertas`), with Google Drive, the spreadsheet
 * decoder and the Telegram transport replaced by inputs:
 *   - `newest`: the id of the newest matching file, None when there is none;
 *   - `decoded`: the decoded rows, None when downloading or decoding raised;
 *   - `ok`: the transport's answer for the send of row i (`ok[i]`); a row
 *     past the end of `ok` counts as a failed send.
 */
module Alerts {
  import opened Options
  import opened Strings
  import opened Subscriptions

  // ---------------------------------------------------------------------------
  // The marker
  // ---------------------------------------------------------------------------

  /** `ler_ultimo_arquivo()` on the marker file's text (None while absent):
      the text as read in text mode, stripped. */
  function LastProcessed(markerFile: Option<string>): Option<string> {
    match markerFile
    case None => None
    case Some(text) => Some(Strip(Universal(text)))
  }

  /** Marker round trip: after `salvar_ultimo_arquivo(id)` the marker reads
      back as `id` itself when `id` holds no "\r" and no surrounding
      whitespace; before any write it reads as None. */
  lemma MarkerRoundTrip(id: string)
    requires '\r' !in id
    requires id == [] || (!IsSpace(id[0]) && !IsSpace(id[|id| - 1]))
    ensures LastProcessed(Some(id)) == Some(id)
    ensures LastProcessed(None) == None
  {
    UniversalNoop(id);
    StripNoop(id);
  }

  // ---------------------------------------------------------------------------
  // Row selection
  // ---------------------------------------------------------------------------

  /** One decoded spreadsheet row: the `Fone` and `Texto` cells as text. */
  datatype Row = Row(fone: string, texto: string)

  /** One `bot.send_message` call: the row it serves, the chat and text it
      sends, and whether the transport accepted it. */
  datatype Attempt = Attempt(row: nat, chatId: int, text: string, delivered: bool)

  /** The transport's answer for the send of row `i`. */
  function Delivered(ok: seq<bool>, i: nat): bool {
    i < |ok| && ok[i]
  }

  /** `telefone in usuarios and usuarios[telefone]["ativo"]`, on the trimmed phone. */
  predicate Eligible(reg: Registry, row: Row) {
    var e := Lookup(reg, Strip(row.fone));
    e.Some? && e.value.active
  }

  /** The sends of the row loop, in file order, against one registry snapshot. */
  function Attempts(reg: Registry, rows: seq<Row>, ok: seq<bool>): seq<Attempt>
    decreases |rows|
  {
    if rows == [] then []
    else
      var n := |rows| - 1;
      var row := rows[n];
      Attempts(reg, rows[..n], ok)
      + if Eligible(reg, row)
        then [Attempt(n, Lookup(reg, Strip(row.fone)).value.chatId, Strip(row.texto), Delivered(ok, n))]
        else []
  }

  /** What the send for row `i` is: to the chat registered for the row's
      trimmed phone, with the row's trimmed text. */
  predicate Serves(reg: Registry, rows: seq<Row>, ok: seq<bool>, a: Attempt) {
    && a.row < |rows|
    && Eligible(reg, rows[a.row])
    && a.chatId == Lookup(reg, Strip(rows[a.row].fone)).value.chatId
    && a.text == Strip(rows[a.row].texto)
    && a.delivered == Delivered(ok, a.row)
  }

  /** The loop's sends so far are kept as the loop moves on. */
  lemma AttemptsPrefix(reg: Registry, rows: seq<Row>, ok: seq<bool>)
    requires rows != []
    ensures var n := |rows| - 1;
      Attempts(reg, rows, ok)[..|Attempts(reg, rows[..n], ok)|] == Attempts(reg, rows[..n], ok)
  {
  }

  /** Every send serves an eligible row, as that row's registration says. */
  lemma {:induction false} AttemptsServe(reg: Registry, rows: seq<Row>, ok: seq<bool>, k: nat)
    requires k < |Attempts(reg, rows, ok)|
    ensures Serves(reg, rows, ok, Attempts(reg, rows, ok)[k])
    decreases |rows|
  {
    var n := |rows| - 1;
    var A0 := Attempts(reg, rows[..n], ok);
    AttemptsPrefix(reg, rows, ok);
    if k < |A0| {
      AttemptsServe(reg, rows[..n], ok, k);
      assert Attempts(reg, rows, ok)[k] == A0[k];
      assert rows[..n][A0[k].row] == rows[A0[k].row];
    }
  }

  /** Sends come in file order, at most one per row. */
  lemma {:induction false} AttemptsInFileOrder(reg: Registry, rows: seq<Row>, ok: seq<bool>, k: nat, l: nat)
    requires k < l < |Attempts(reg, rows, ok)|
    ensures Attempts(reg, rows, ok)[k].row < Attempts(reg, rows, ok)[l].row
    decreases |rows|
  {
    var n := |rows| - 1;
    var A0 := Attempts(reg, rows[..n], ok);
    AttemptsPrefix(reg, rows, ok);
    AttemptsServe(reg, rows[..n], ok, k);
    if l < |A0| {
      AttemptsInFileOrder(reg, rows[..n], ok, k, l);
    }
  }

  /** Every eligible row gets a send. */
  lemma {:induction false} EligibleRowsSent(reg: Registry, rows: seq<Row>, ok: seq<bool>, i: nat)
    requires i < |rows| && Eligible(reg, rows[i])
    ensures exists k :: 0 <= k < |Attempts(reg, rows, ok)| && Attempts(reg, rows, ok)[k].row == i
    decreases |rows|
  {
    var n := |rows| - 1;
    var A0 := Attempts(reg, rows[..n], ok);
    var A := Attempts(reg, rows, ok);
    AttemptsPrefix(reg, rows, ok);
    if i == n {
      assert A[|A0|].row == n;
    } else {
      assert rows[..n][i] == rows[i];
      EligibleRowsSent(reg, rows[..n], ok, i);
      var k :| 0 <= k < |A0| && A0[k].row == i;
      assert A[k] == A0[k];
    }
  }

  /** Dispatch: a send is attempted for a row exactly when its trimmed phone
      is registered and active, once per such row and in file order, and each
      send goes to that registration's chat with the row's trimmed text. */
  lemma AttemptsExactly(reg: Registry, rows: seq<Row>, ok: seq<bool>)
    ensures forall k :: 0 <= k < |Attempts(reg, rows, ok)| ==> Serves(reg, rows, ok, Attempts(reg, rows, ok)[k])
    ensures forall k, l :: 0 <= k < l < |Attempts(reg, rows, ok)| ==> Attempts(reg, rows, ok)[k].row < Attempts(reg, rows, ok)[l].row
    ensures forall i :: 0 <= i < |rows| && Eligible(reg, rows[i]) ==>
              exists k :: 0 <= k < |Attempts(reg, rows, ok)| && Attempts(reg, rows, ok)[k].row == i
  {
    forall k | 0 <= k < |Attempts(reg, rows, ok)|
      ensures Serves(reg, rows, ok, Attempts(reg, rows, ok)[k])
    {
      AttemptsServe(reg, rows, ok, k);
    }
    forall k, l | 0 <= k < l < |Attempts(reg, rows, ok)|
      ensures Attempts(reg, rows, ok)[k].row < Attempts(reg, rows, ok)[l].row
    {
      AttemptsInFileOrder(reg, rows, ok, k, l);
    }
    forall i | 0 <= i < |rows| && Eligible(reg, rows[i])
      ensures exists k :: 0 <= k < |Attempts(reg, rows, ok)| && Attempts(reg, rows, ok)[k].row == i
    {
      EligibleRowsSent(reg, rows, ok, i);
    }
  }

  /** Per-row isolation: the transport's answers decide only which sends were
      delivered, never which sends are attempted, so a failed send does not
      stop the rows after it. */
  lemma {:induction false} OutcomesDoNotSteer(reg: Registry, rows: seq<Row>, ok1: seq<bool>, ok2: seq<bool>)
    ensures |Attempts(reg, rows, ok1)| == |Attempts(reg, rows, ok2)|
    ensures forall k :: 0 <= k < |Attempts(reg, rows, ok1)| ==>
              Attempts(reg, rows, ok1)[k].(delivered := true) == Attempts(reg, rows, ok2)[k].(delivered := true)
    decreases |rows|
  {
    if rows != [] {
      var n := |rows| - 1;
      OutcomesDoNotSteer(reg, rows[..n], ok1, ok2);
    }
  }

  // ---------------------------------------------------------------------------
  // The cycle
  // ---------------------------------------------------------------------------

  /** How `enviar_alertas` ends: no file found, the file already processed,
      an exception from the download, the decoder or the registry load, or a
      completed row loop with its sends. */
  datatype Cycle = NoFile | AlreadyProcessed | Aborted | Dispatched(attempts: seq<Attempt>)

  /** The outcome of a cycle and the marker file's text afterwards. */
  datatype CycleResult = CycleResult(outcome: Cycle, markerFile: Option<string>)

  /** One run of `enviar_alertas` on the two files' texts and the inputs. */
  function RunCycle(markerFile: Option<string>, usersFile: Option<string>, newest: Option<string>,
                    decoded: Option<seq<Row>>, ok: seq<bool>): CycleResult
  {
    if newest.None? then CycleResult(NoFile, markerFile)
    else if newest == LastProcessed(markerFile) then CycleResult(AlreadyProcessed, markerFile)
    else if decoded.None? then CycleResult(Aborted, markerFile)
    else match Load(usersFile)
      case Err(_) => CycleResult(Aborted, markerFile)
      case Ok(reg) => CycleResult(Dispatched(Attempts(reg, decoded.value, ok)), newest)
  }

  /** The marker moves only at the end of a completed row loop, and then to
      the file's id whatever the sends' answers were; every other ending
      attempts no send and leaves it as it was. */
  lemma MarkerOnlyAdvancesOnDispatch(markerFile: Option<string>, usersFile: Option<string>, newest: Option<string>,
                                     decoded: Option<seq<Row>>, ok: seq<bool>)
    ensures var c := RunCycle(markerFile, usersFile, newest, decoded, ok);
      && (c.outcome.Dispatched? <==> newest.Some? && newest != LastProcessed(markerFile) && decoded.Some? && Load(usersFile).Ok?)
      && (c.outcome.Dispatched? ==> c.markerFile == newest && c.outcome.attempts == Attempts(Load(usersFile).value, decoded.value, ok))
      && (!c.outcome.Dispatched? ==> c.markerFile == markerFile)
  {
  }

  /** Idempotence: once a file has been dispatched, the next cycle that finds
      the same file id is a no-op (no send, marker unchanged) exactly when the
      id reads back from the marker file as itself. */
  lemma RerunIsNoop(markerFile: Option<string>, usersFile: Option<string>, id: string,
                    decoded: Option<seq<Row>>, ok: seq<bool>,
                    usersFile2: Option<string>, decoded2: Option<seq<Row>>, ok2: seq<bool>)
    requires RunCycle(markerFile, usersFile, Some(id), decoded, ok).outcome.Dispatched?
    ensures var after := RunCycle(markerFile, usersFile, Some(id), decoded, ok).markerFile;
      RunCycle(after, usersFile2, Some(id), decoded2, ok2) == CycleResult(AlreadyProcessed, after)
      <==> Strip(Universal(id)) == id
  {
  }

  /** A file id that ends in a line break would be dispatched again on every
      cycle, because the marker is stripped when read but not when written. */
  lemma TrailingNewlineIdIsResent(id: string, usersFile: Option<string>, rows: seq<Row>, ok: seq<bool>)
    requires id != [] && id[|id| - 1] == '\n'
    requires Load(usersFile).Ok?
    ensures RunCycle(Some(id), usersFile, Some(id), Some(rows), ok).outcome.Dispatched?
  {
    var t := Universal(id);
    TrimRightSpec(TrimLeft(t));
    assert Strip(t) == [] || !IsSpace(Strip(t)[|Strip(t)| - 1]);
    assert Strip(t) != id;
  }
}
