# bot-alerta-iagro: a Dafny model of the alert relay's core

The bot forwards alert messages from a spreadsheet on Google Drive to Telegram
users who registered their phone number. This project models the part of
`main.py` that is sequential logic rather than plumbing, and proves what it
does:

- **Subscription registry** (`usuarios.txt`, `carregar_usuarios` /
  `salvar_usuarios`). The registry is a dictionary from a phone text to
  `{chat_id, ativo}`. A Python dict iterates in insertion order and `parar`
  depends on that order, so the model keeps the items as a sequence with
  distinct phones (`Subscriptions.Registry`). `Put` models `usuarios[k] = v`:
  a key already present keeps its place, and a new key goes last. The file
  holds one `chat_id;telefone;1|0` line per item. Reading it is modelled as
  Python's text mode does it: `\r\n` and a lone `\r` become `\n`, and a final
  `\n` does not start another line.
- **Processed-file marker** (`ultimo_arquivo.txt`, `ler_ultimo_arquivo` /
  `salvar_ultimo_arquivo`). The marker is None while the file is absent.
  Otherwise it is the file's stripped text.
- **Command handlers** `parar` and `receber_telefone`, as transitions of the
  registry file. Their replies are returned as a `Reply` value instead of
  being sent.
- **The batch cycle** `enviar_alertas`. It has two early returns, then one
  registry snapshot, the row loop with per-row failure isolation, and finally
  the marker write.

Modules: `Options` (Option, Result), `Strings` (the Python string operations
used: `strip`, `split`, line iteration, `isdigit`, `int`, `str`; `join` is not called by the bot and appears only as the inverse of `split` in `SplitJoin`),
`Subscriptions` (registry, dictionary assignment, deactivation, file codec),
`Alerts` (marker reading, row selection, the cycle as a function) and `Bot`
(the class `Store`, which holds the two files' texts as fields, and the
handlers and cycle as methods proved against the functions above).

External effects are inputs of `Bot.Store.SendAlerts`:
- `newest`: the id of the newest Drive file, or None when there is none.
- `decoded`: the decoded `Fone`/`Texto` rows as text, or None when the
  download or `pd.read_excel` raised.
- `ok`: the Telegram answer for each row's send. A row past the end of `ok`
  counts as a failed send.

Three behaviours of the code may differ from what a reader expects. The model follows the code:
- A corrupt registry line aborts the whole load with `ValueError`; lines are
  not skipped.
- `parar` turns off only the first item of the chat, in iteration order. It
  does not turn off every item of the chat (`StopLeavesLaterMatchActive`).
- The processed-file check compares the raw file id with the stripped marker
  text. A file id with surrounding whitespace or a `\r` would therefore be
  dispatched again on every cycle (`RerunIsNoop`, `TrailingNewlineIdIsResent`).
  Drive ids never contain these characters.

## Model

| member | source | states |
|---|---|---|
| `Bot.Store.ReadMarker` | main.py:33-37 | Returns None exactly when the marker file is absent; otherwise returns the file's text read in text mode and stripped. |
| `Bot.Store.WriteMarker` | main.py:40-42 | The marker file afterwards holds exactly the given id, unstripped; the registry file is untouched. |
| `Alerts.MarkerRoundTrip` | main.py:33-42 | A written id without `\r` and without surrounding whitespace reads back as itself; before any write the marker reads as None. |
| `Bot.Store.LoadUsers` | main.py:45-57 | The line loop returns the registry `Load` defines for the file: empty when the file is absent, and otherwise the first bad line's error or every line stored in turn. |
| `Bot.Store.SaveUsers` | main.py:60-64 | The registry file afterwards holds one `chat_id;phone;flag` line per item, each ending in `\n`, in iteration order; the marker file is untouched. |
| `Subscriptions.SerializeAppend` | main.py:62-64 | Writing one more item appends exactly that item's line and a `\n` to the text. |
| `Subscriptions.LinesOfSerialize` | main.py:60-64 | For storable phones, the written text holds no `\r`, and reading it back gives exactly one line per item, equal to that item's formatted line. |
| `Subscriptions.RoundTrip` | main.py:45-64 | For distinct phones free of `;`, `\n` and `\r`, loading the saved text gives back the same items in the same order. |
| `Subscriptions.LineRule` | main.py:52-55 | The line made of `str(chat_id)`, a `;`-free phone and a `;`-free flag that does not end in whitespace, joined by `;`, loads as that chat and phone. The flag `"1"` means active and any other such flag means inactive. |
| `Subscriptions.FormatParseLine` | main.py:52-64 | Every line `salvar_usuarios` writes for a phone without `;` parses back to the item it was written from. |
| `Subscriptions.FieldCountRule` | main.py:52 | A line fails with `BadFieldCount` if and only if its stripped text does not contain exactly two `;`. |
| `Subscriptions.LoadAbortsOnFirstBadLine` | main.py:51-56 | The load succeeds if and only if every line parses. When it fails, its error is the error of the first line that does not parse, so no line is skipped. |
| `Subscriptions.CollectStopsAt` | main.py:51-56 | When every line before `i` parses and line `i` does not, the whole load fails with line `i`'s error. |
| `Subscriptions.LaterLineOverwrites` | main.py:51-56 | After a successful load, a phone maps to the entry of the last line that names it. |
| `Subscriptions.UnnamedPhoneAbsent` | main.py:51-56 | After a successful load, a phone that no line names is not a key. |
| `Subscriptions.CollectWellFormed` | main.py:51-56 | The items a load produces have distinct phones, and the phones are storable when the lines' phones are. |
| `Subscriptions.ParsedPhoneStorable` | main.py:52-53 | The phone field of a parsed line contains no `;`, and no `\n` or `\r` when the line contains none. |
| `Subscriptions.LoadWellFormed` | main.py:45-57 | Every registry loaded from a file has distinct, storable phones, so the codec reproduces it. |
| `Subscriptions.PutSemantics` | main.py:139-142 | After `usuarios[phone] = e`, the phone maps to `e` and every other phone keeps its value. The key order is unchanged when the phone was present; otherwise the phone is added last. Distinct keys stay distinct. |
| `Subscriptions.PutWellFormed` | main.py:138-143 | Storing a storable phone keeps the registry's phones distinct and storable. |
| `Subscriptions.FirstWithChat` | main.py:121-122 | Returns the position of the first item whose chat equals the sender's, or the registry's length when there is none. |
| `Subscriptions.DeactivateSemantics` | main.py:121-126 | A match is found if and only if some item has the sender's chat. Then exactly the first such item gets `ativo = False`, even if it was already inactive. Every other item, later items of the same chat included, is unchanged, and so is the key order. |
| `Subscriptions.DeactivateWellFormed` | main.py:121-124 | Deactivation keeps the registry's phones distinct and storable. |
| `Subscriptions.StopLeavesLaterMatchActive` | main.py:121-126 | Shows a chat with two phones: after `/parar`, its second phone is still active. |
| `Bot.Store.Stop` | main.py:117-128 | `/parar`: a registry load error is the reply and nothing is written. With no match, the reply is "not registered" and nothing is written. Otherwise the deactivated registry is saved and loads back as exactly that registry. The marker is untouched. |
| `Bot.ValidPhoneStorable` | main.py:132-134 | A phone that passes validation contains no `;`, `\n` or `\r`. |
| `Bot.ValidPhoneExamples` | main.py:132-136 | `"abc123"` and a 9-digit text are rejected. `"67999998888"` is accepted, also with surrounding whitespace. |
| `Bot.Store.ReceivePhone` | main.py:131-145 | A stripped text that is not at least ten ASCII digits is rejected, and the file is not read or written. Otherwise the phone is stored as `(sender chat, active)`, replacing any earlier entry for it. The saved file loads back as exactly the updated registry, and a load error leaves the file untouched. |
| `Strings.StripIsTrimmedInfix` | main.py:132 | `strip()` returns a contiguous piece of its argument. Only whitespace is cut on either side, and none is left at the ends. |
| `Strings.IntRoundTrip` | main.py:54-64 | `int(str(n)) == n` for every integer chat id. |
| `Strings.SplitJoin` | main.py:52 | Joining the fields of `split(sep)` with `sep` gives back the original text. |
| `Strings.SplitCount` | main.py:52 | `split(sep)` returns one field more than the text has separators. |
| `Bot.SendRows` | main.py:171-182 | The row loop returns exactly the sends that `Attempts` defines for the snapshot, the rows and the transport's answers. |
| `Alerts.AttemptsServe` | main.py:172-180 | Every send serves an eligible row: it goes to the chat stored for the row's stripped phone, with the row's stripped text, and carries the transport's answer for that row. |
| `Alerts.AttemptsInFileOrder` | main.py:171-182 | Sends come in file order, with at most one send per row. |
| `Alerts.EligibleRowsSent` | main.py:175-180 | Every row whose stripped phone is registered and active gets a send. |
| `Alerts.AttemptsExactly` | main.py:171-182 | A send is attempted for a row exactly when its stripped phone is registered and active. There is one send per such row, in file order, and each goes to the registered chat with the stripped text. |
| `Alerts.OutcomesDoNotSteer` | main.py:176-182 | Per-row isolation: the transport's answers do not change which sends are attempted, to which chats or with which texts. They only change which sends count as delivered. |
| `Alerts.MarkerOnlyAdvancesOnDispatch` | main.py:154-184 | The cycle dispatches if and only if there is a file, its id differs from the marker, and decoding and the registry load succeed. A dispatch sets the marker to the id whatever the sends' answers were. Every other outcome sends nothing and leaves the marker unchanged. |
| `Alerts.RerunIsNoop` | main.py:154-184 | After a dispatch, the next cycle sees the same id as already processed (no send, marker unchanged) if and only if the id reads back from the marker file as itself. |
| `Alerts.TrailingNewlineIdIsResent` | main.py:154-163 | Every file id whose last character is `\n` is dispatched again even when the marker file already holds it. |
| `Bot.Store.SendAlerts` | main.py:151-185 | The cycle's outcome and the resulting marker file are those `RunCycle` defines for the old marker, the registry file and the inputs. The registry file is not changed. |

## Left out

- Google Drive access (`obter_drive_service`, `obter_ultimo_arquivo_drive`, `baixar_arquivo`): credentials, the query and the download are external services. The model takes the newest file's id as an input, and a failed download as "decoded is None".
- `pd.read_excel` and `str()` of cell values: spreadsheet decoding and the formatting of numeric or empty cells belong to pandas. Rows come in as pairs of texts.
- The Telegram transport: `start` only sends a fixed welcome text, so it changes no state. Replies, `bot.send_message` and the handler wiring in `main` are left out; each send's outcome is an input.
- `asyncio` and interleaving: every handler and the cycle run as one atomic step. Lost updates between concurrent whole-file rewrites are not modelled.
- `print` logging: it has no effect on state.
- I/O errors from `open`/`write`, file encodings, and a crash in the middle of a write are left out. A file is either absent or holds a text.
- `Bot.ValidPhone` accepts only ASCII `0`–`9`. Python's `str.isdigit` also accepts other Unicode digits.
- `Strings.IsSpace` covers ASCII whitespace only (space and `\t` to `\r`). Python's `strip()` also removes Unicode whitespace such as `\x1c`–`\x1f`, `\x85` and `\xa0`.
- `Strings.ParseInt` accepts an optional sign and ASCII digits around ASCII whitespace. Python's `int()` also accepts `_` between digits and non-ASCII digits.
- Python distinguishes the two load errors only as `ValueError`. The model names them (`BadFieldCount`, `BadChatId`) and records the line number, so that "the first bad line" can be stated.
