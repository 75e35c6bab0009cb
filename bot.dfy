/**
 * The bot's persistent state and the operations on it: the two text files it
 * keeps, the `/parar` handler, the phone-registration handler and the batch
 * cycle `enviar_alertas`. Replies to the user are returned as a `Reply`
 * instead of being sent.
 */
module Bot {
  import opened Options
  import opened Strings
  import opened Subscriptions
  import opened Alerts

  /** What a handler answers: the phone text was rejected, the phone was
      registered, alerts were turned off, the chat was not registered, or
      loading the registry raised (the handler dies with that error). */
  datatype Reply = Rejected | Registered | Deactivated | NotRegistered | LoadFailed(error: LoadError)

  /** `telefone.isdigit() and len(telefone) >= 10` on the stripped message text. */
  predicate ValidPhone(text: string) {
    IsDigits(Strip(text)) && |Strip(text)| >= 10
  }

  /** A phone that passes validation can be stored. */
  lemma ValidPhoneStorable(text: string)
    requires ValidPhone(text)
    ensures Storable(Strip(text))
  {
    var p := Strip(text);
    assert forall c :: c in p ==> IsDigit(c);
  }

  /** The two example messages: letters are rejected, eleven digits accepted. */
  lemma ValidPhoneExamples()
    ensures !ValidPhone("abc123")
    ensures ValidPhone("67999998888")
    ensures ValidPhone(" 67999998888\n")
    ensures !ValidPhone("679999988")
  {
    assert Strip("abc123") == "abc123";
    assert Strip("67999998888") == "67999998888";
    assert TrimLeft(" 67999998888\n") == "67999998888\n";
    assert TrimRight("67999998888\n") == "67999998888";
    assert Strip("679999988") == "679999988";
  }

  /** The files the bot keeps in its working directory. */
  class Store {
    /** The text of `usuarios.txt`; None while the file does not exist. */
    var usersFile: Option<string>
    /** The text of `ultimo_arquivo.txt`; None while the file does not exist. */
    var markerFile: Option<string>

    /** A fresh working directory holds neither file. */
    constructor ()
      ensures usersFile == None && markerFile == None
    {
      usersFile := None;
      markerFile := None;
    }

    /** `ler_ultimo_arquivo()`. */
    method ReadMarker() returns (m: Option<string>)
      ensures m == LastProcessed(markerFile)
      ensures markerFile.None? <==> m.None?
    {
      if markerFile.None? {
        m := None;
      } else {
        m := Some(Strip(Universal(markerFile.value)));
      }
    }

    /** `salvar_ultimo_arquivo(file_id)`: the file is overwritten with the id. */
    method WriteMarker(id: string)
      modifies this`markerFile
      ensures markerFile == Some(id)
      ensures usersFile == old(usersFile)
    {
      markerFile := Some(id);
    }

    /** `carregar_usuarios()`: parse the file line by line, storing each line's
        item under its phone; the first bad line raises. */
    method LoadUsers() returns (r: Result<Registry, LoadError>)
      ensures r == Load(usersFile)
    {
      if usersFile.None? {
        return Ok([]);
      }
      var lines := Lines(Universal(usersFile.value));
      ghost var rs := ParsedLines(lines);
      var reg: Registry := [];
      var i := 0;
      while i < |lines|
        invariant 0 <= i <= |lines|
        invariant Collect(rs[..i]) == Ok(reg)
      {
        var parsed := ParseLine(lines[i], i);
        if parsed.Err? {
          CollectStopsAt(rs, i);
          return Err(parsed.error);
        }
        assert rs[..i + 1][..i] == rs[..i];
        reg := Put(reg, parsed.value.phone, parsed.value.entry);
        i := i + 1;
      }
      assert rs[..i] == rs;
      return Ok(reg);
    }

    /** `salvar_usuarios(usuarios)`: the file is overwritten with one line per
        item, in iteration order. */
    method SaveUsers(reg: Registry)
      modifies this`usersFile
      ensures usersFile == Some(Serialize(reg))
      ensures markerFile == old(markerFile)
    {
      var text := "";
      ghost var lines := FormatLines(reg);
      var i := 0;
      while i < |reg|
        invariant 0 <= i <= |reg|
        invariant text == Terminated(lines[..i])
      {
        var line := FormatLine(reg[i]);
        TerminatedStep(lines, i);
        text := text + line + "\n";
        i := i + 1;
      }
      assert lines[..i] == lines;
      usersFile := Some(text);
    }

    /** `parar`: turn off the first item of the sender's chat and save; when
        the chat owns no item, nothing is written. The saved file loads back
        as the deactivated registry. */
    method Stop(chat: int) returns (reply: Reply)
      modifies this`usersFile
      ensures markerFile == old(markerFile)
      ensures match Load(old(usersFile))
        case Err(e) => reply == LoadFailed(e) && usersFile == old(usersFile)
        case Ok(reg) =>
          match Deactivate(reg, chat)
          case None => reply == NotRegistered && usersFile == old(usersFile)
          case Some(reg') => reply == Deactivated && usersFile == Some(Serialize(reg')) && Load(usersFile) == Ok(reg')
    {
      var loaded := LoadUsers();
      if loaded.Err? {
        return LoadFailed(loaded.error);
      }
      var reg := loaded.value;
      LoadWellFormed(usersFile);
      var i := 0;
      while i < |reg|
        invariant 0 <= i <= |reg|
        invariant usersFile == old(usersFile)
        invariant forall j :: 0 <= j < i ==> reg[j].entry.chatId != chat
      {
        if reg[i].entry.chatId == chat {
          var reg' := reg[i := Subscription(reg[i].phone, Entry(reg[i].entry.chatId, false))];
          FirstWithChatAt(reg, chat, i);
          DeactivateWellFormed(reg, chat);
          SaveUsers(reg');
          RoundTrip(reg');
          return Deactivated;
        }
        i := i + 1;
      }
      FirstWithChatAt(reg, chat, |reg|);
      return NotRegistered;
    }

    /** `receber_telefone`: a stripped text of at least ten digits is stored
        as the sender's active phone, replacing any earlier item for it;
        anything else is rejected without touching the file. The saved file
        loads back as the updated registry. */
    method ReceivePhone(text: string, chat: int) returns (reply: Reply)
      modifies this`usersFile
      ensures markerFile == old(markerFile)
      ensures !ValidPhone(text) ==> reply == Rejected && usersFile == old(usersFile)
      ensures ValidPhone(text) ==>
        match Load(old(usersFile))
        case Err(e) => reply == LoadFailed(e) && usersFile == old(usersFile)
        case Ok(reg) =>
          var reg' := Put(reg, Strip(text), Entry(chat, true));
          reply == Registered && usersFile == Some(Serialize(reg')) && Load(usersFile) == Ok(reg')
    {
      var phone := Strip(text);
      if !(IsDigits(phone) && |phone| >= 10) {
        return Rejected;
      }
      var loaded := LoadUsers();
      if loaded.Err? {
        return LoadFailed(loaded.error);
      }
      var reg := loaded.value;
      LoadWellFormed(usersFile);
      ValidPhoneStorable(text);
      var reg' := Put(reg, phone, Entry(chat, true));
      PutWellFormed(reg, phone, Entry(chat, true));
      SaveUsers(reg');
      RoundTrip(reg');
      return Registered;
    }

    /** `enviar_alertas`: return early when there is no file or it is the one
        the marker names; otherwise load the registry once, walk the rows in
        order sending to each registered active phone (a failed send is
        caught and the loop goes on), and then record the file's id. */
    method SendAlerts(newest: Option<string>, decoded: Option<seq<Row>>, ok: seq<bool>) returns (outcome: Cycle)
      modifies this`markerFile
      ensures usersFile == old(usersFile)
      ensures CycleResult(outcome, markerFile) == RunCycle(old(markerFile), usersFile, newest, decoded, ok)
    {
      var last := ReadMarker();
      if newest.None? {
        return NoFile;
      }
      var id := newest.value;
      if Some(id) == last {
        return AlreadyProcessed;
      }
      if decoded.None? {
        return Aborted;
      }
      var rows := decoded.value;
      var loaded := LoadUsers();
      if loaded.Err? {
        return Aborted;
      }
      var reg := loaded.value;
      var attempts := SendRows(reg, rows, ok);
      WriteMarker(id);
      return Dispatched(attempts);
    }
  }

  /** The row loop of `enviar_alertas` over one registry snapshot: each
      row whose stripped phone is registered and active gets one
      `send_message` to its chat; a failed send is caught and the loop
      goes on. It reads no file, so it is not a member of `Store`. */
  method SendRows(reg: Registry, rows: seq<Row>, ok: seq<bool>) returns (attempts: seq<Attempt>)
    ensures attempts == Attempts(reg, rows, ok)
  {
    attempts := [];
    var i := 0;
    while i < |rows|
      invariant 0 <= i <= |rows|
      invariant attempts == Attempts(reg, rows[..i], ok)
    {
      var phone := Strip(rows[i].fone);
      var message := Strip(rows[i].texto);
      var entry := Lookup(reg, phone);
      if entry.Some? && entry.value.active {
        attempts := attempts + [Attempt(i, entry.value.chatId, message, Delivered(ok, i))];
      }
      assert rows[..i + 1][..i] == rows[..i];
      i := i + 1;
    }
    assert rows[..i] == rows;
  }
}
