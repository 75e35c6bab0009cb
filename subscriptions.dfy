/**
 * The subscription registry of the bot (`usuarios.txt`): a dictionary from a
 * phone text to the chat it is delivered to and whether it is active, kept in
 * a text file with one `chat_id;telefone;ativo` line per subscription.
 *
 * A Python dict iterates in insertion order, and `parar` depends on that
 * order, so the registry is a sequence of subscriptions with distinct phones
 * rather than a Dafny `map`.
 */
module Subscriptions {
  import opened Options
  import opened Strings

  /** The value stored under a phone: `{"chat_id": ..., "ativo": ...}`. */
  datatype Entry = Entry(chatId: int, active: bool)

  datatype Subscription = Subscription(phone: string, entry: Entry)

  /** The dictionary's items in iteration order. */
  type Registry = seq<Subscription>

  /** The dictionary's keys in iteration order. */
  function Phones(r: Registry): (ps: seq<string>)
    ensures |ps| == |r| && forall i :: 0 <= i < |r| ==> ps[i] == r[i].phone
  {
    if r == [] then [] else [r[0].phone] + Phones(r[1..])
  }

  /** A dictionary has each key once. */
  predicate UniquePhones(r: Registry) {
    forall i, j :: 0 <= i < j < |r| ==> r[i].phone != r[j].phone
  }

  /** Where `phone` sits in the iteration order, or `|r|` when it is not a key. */
  function IndexOfPhone(r: Registry, phone: string): (k: nat)
    ensures k <= |r|
    ensures k < |r| ==> r[k].phone == phone
    ensures forall i :: 0 <= i < k ==> r[i].phone != phone
  {
    if r == [] || r[0].phone == phone then 0 else 1 + IndexOfPhone(r[1..], phone)
  }

  /** `usuarios[phone]` when `phone in usuarios`, None otherwise. */
  function Lookup(r: Registry, phone: string): Option<Entry> {
    var k := IndexOfPhone(r, phone);
    if k < |r| then Some(r[k].entry) else None
  }

  /** `usuarios[phone] = e`: a key already present keeps its place and takes
      the new value; a new key is added last. */
  function Put(r: Registry, phone: string, e: Entry): Registry {
    var k := IndexOfPhone(r, phone);
    if k < |r| then r[k := Subscription(phone, e)] else r + [Subscription(phone, e)]
  }

  /** After `usuarios[phone] = e` the key maps to `e`. */
  lemma PutLookupSame(r: Registry, phone: string, e: Entry)
    ensures Lookup(Put(r, phone, e), phone) == Some(e)
  {
    IndexOfPhoneAt(Put(r, phone, e), phone, IndexOfPhone(r, phone));
  }

  /** After `usuarios[phone] = e` every other key keeps its value. */
  lemma PutLookupOther(r: Registry, phone: string, e: Entry, q: string)
    requires q != phone
    ensures Lookup(Put(r, phone, e), q) == Lookup(r, q)
  {
    var r' := Put(r, phone, e);
    var kq := IndexOfPhone(r, q);
    if kq < |r| {
      IndexOfPhoneAt(r', q, kq);
    } else {
      IndexOfPhoneAt(r', q, |r'|);
    }
  }

  /** `usuarios[phone] = e` keeps the iteration order; a new key goes last. */
  lemma PutPhones(r: Registry, phone: string, e: Entry)
    ensures Phones(Put(r, phone, e)) == if Lookup(r, phone).Some? then Phones(r) else Phones(r) + [phone]
  {
    var r' := Put(r, phone, e);
    var k := IndexOfPhone(r, phone);
    if k < |r| {
      assert forall i :: 0 <= i < |r| ==> Phones(r')[i] == Phones(r)[i];
    } else {
      assert forall i :: 0 <= i < |r'| ==> Phones(r')[i] == (Phones(r) + [phone])[i];
    }
  }

  /** `usuarios[phone] = e` keeps the keys distinct. */
  lemma PutUnique(r: Registry, phone: string, e: Entry)
    requires UniquePhones(r)
    ensures UniquePhones(Put(r, phone, e))
  {
  }

  /** All of the above: the dictionary assignment, as a whole. */
  lemma PutSemantics(r: Registry, phone: string, e: Entry)
    ensures Lookup(Put(r, phone, e), phone) == Some(e)
    ensures forall q :: q != phone ==> Lookup(Put(r, phone, e), q) == Lookup(r, q)
    ensures Phones(Put(r, phone, e)) == if Lookup(r, phone).Some? then Phones(r) else Phones(r) + [phone]
    ensures UniquePhones(r) ==> UniquePhones(Put(r, phone, e))
  {
    PutLookupSame(r, phone, e);
    forall q | q != phone
      ensures Lookup(Put(r, phone, e), q) == Lookup(r, q)
    {
      PutLookupOther(r, phone, e, q);
    }
    PutPhones(r, phone, e);
    if UniquePhones(r) {
      PutUnique(r, phone, e);
    }
  }

  /** The position of a key is determined by the first item holding it. */
  lemma IndexOfPhoneAt(r: Registry, phone: string, k: nat)
    requires k <= |r|
    requires k < |r| ==> r[k].phone == phone
    requires forall i :: 0 <= i < k ==> r[i].phone != phone
    ensures IndexOfPhone(r, phone) == k
  {
  }

  // ---------------------------------------------------------------------------
  // Deactivation by chat (the registry side of `parar`)
  // ---------------------------------------------------------------------------

  /** The first item in iteration order whose chat is `chat`, or `|r|`. */
  function FirstWithChat(r: Registry, chat: int): (k: nat)
    ensures k <= |r|
    ensures k < |r| ==> r[k].entry.chatId == chat
    ensures forall i :: 0 <= i < k ==> r[i].entry.chatId != chat
  {
    if r == [] || r[0].entry.chatId == chat then 0 else 1 + FirstWithChat(r[1..], chat)
  }

  /** Set `ativo` to False on the first item of `chat`; None when the chat
      owns no item. */
  function Deactivate(r: Registry, chat: int): Option<Registry> {
    var k := FirstWithChat(r, chat);
    if k < |r| then Some(r[k := Subscription(r[k].phone, Entry(chat, false))]) else None
  }

  /** Deactivation finds a match exactly when the chat owns an item; it then
      turns off the first such item, whatever its flag was, and leaves every
      other item, the later items of the same chat among them, as they were. */
  lemma DeactivateSemantics(r: Registry, chat: int)
    ensures Deactivate(r, chat).None? <==> forall i :: 0 <= i < |r| ==> r[i].entry.chatId != chat
    ensures Deactivate(r, chat).Some? ==>
      var r' := Deactivate(r, chat).value;
      && |r'| == |r|
      && exists k :: 0 <= k < |r|
           && r[k].entry.chatId == chat
           && (forall i :: 0 <= i < k ==> r[i].entry.chatId != chat)
           && r'[k] == Subscription(r[k].phone, Entry(chat, false))
           && (forall i :: 0 <= i < |r| && i != k ==> r'[i] == r[i])
    ensures Deactivate(r, chat).Some? ==> Phones(Deactivate(r, chat).value) == Phones(r)
  {
    var k := FirstWithChat(r, chat);
    if k < |r| {
      var r' := Deactivate(r, chat).value;
      assert r'[k] == Subscription(r[k].phone, Entry(chat, false));
      assert Phones(r') == Phones(r);
    }
  }

  /** The first item of a chat is determined by the items before it. */
  lemma FirstWithChatAt(r: Registry, chat: int, k: nat)
    requires k <= |r|
    requires k < |r| ==> r[k].entry.chatId == chat
    requires forall i :: 0 <= i < k ==> r[i].entry.chatId != chat
    ensures FirstWithChat(r, chat) == k
  {
  }

  /** A chat that registered two phones and stops keeps its second
      subscription active: only the first match is turned off. */
  lemma StopLeavesLaterMatchActive()
    ensures
      var r := [Subscription("6799990001", Entry(7, true)), Subscription("6799990002", Entry(7, true))];
      Deactivate(r, 7) == Some([Subscription("6799990001", Entry(7, false)), Subscription("6799990002", Entry(7, true))])
  {
    var r := [Subscription("6799990001", Entry(7, true)), Subscription("6799990002", Entry(7, true))];
    assert FirstWithChat(r, 7) == 0;
    assert r[0 := Subscription(r[0].phone, Entry(7, false))]
        == [Subscription("6799990001", Entry(7, false)), Subscription("6799990002", Entry(7, true))];
  }

  // ---------------------------------------------------------------------------
  // The text codec of usuarios.txt
  // ---------------------------------------------------------------------------

  /** A phone that survives being written and read back: it holds no field
      separator and nothing a text-mode read treats as a line break. */
  predicate Storable(phone: string) {
    ';' !in phone && '\n' !in phone && '\r' !in phone
  }

  /** A registry that the codec reproduces: distinct, storable phones. */
  predicate WellFormed(r: Registry) {
    UniquePhones(r) && forall i :: 0 <= i < |r| ==> Storable(r[i].phone)
  }

  /** Storing a storable phone keeps a registry well formed. */
  lemma PutWellFormed(r: Registry, phone: string, e: Entry)
    requires WellFormed(r) && Storable(phone)
    ensures WellFormed(Put(r, phone, e))
  {
    PutPhones(r, phone, e);
    PutUnique(r, phone, e);
    var r' := Put(r, phone, e);
    forall i | 0 <= i < |r'|
      ensures Storable(r'[i].phone)
    {
      assert r'[i].phone == Phones(r')[i];
      if i < |r| {
        assert Phones(r')[i] == Phones(r)[i];
      }
    }
  }

  /** Deactivation keeps a registry well formed. */
  lemma DeactivateWellFormed(r: Registry, chat: int)
    requires WellFormed(r) && Deactivate(r, chat).Some?
    ensures WellFormed(Deactivate(r, chat).value)
  {
    var k := FirstWithChat(r, chat);
    var r' := r[k := Subscription(r[k].phone, Entry(chat, false))];
    assert Deactivate(r, chat).value == r';
    assert forall i :: 0 <= i < |r| ==> r'[i].phone == r[i].phone;
  }

  function FlagText(active: bool): string {
    if active then "1" else "0"
  }

  /** The line `salvar_usuarios` writes for one item, without its "\n". */
  function FormatLine(s: Subscription): string {
    IntToString(s.entry.chatId) + ";" + s.phone + ";" + FlagText(s.entry.active)
  }

  /** The lines `salvar_usuarios` writes, in iteration order. */
  function FormatLines(r: Registry): (ls: seq<string>)
    ensures |ls| == |r| && forall i :: 0 <= i < |r| ==> ls[i] == FormatLine(r[i])
  {
    seq(|r|, i requires 0 <= i < |r| => FormatLine(r[i]))
  }

  /** The whole text `salvar_usuarios` writes. */
  function Serialize(r: Registry): string {
    Terminated(FormatLines(r))
  }

  /** Writing one more item appends its line. */
  lemma SerializeAppend(r: Registry, s: Subscription)
    ensures Serialize(r + [s]) == Serialize(r) + FormatLine(s) + "\n"
  {
    assert FormatLines(r + [s]) == FormatLines(r) + [FormatLine(s)];
    TerminatedAppend(FormatLines(r), FormatLine(s));
  }

  /** Why `carregar_usuarios` raises `ValueError`, with the 0-based number of
      the offending line: the line does not split into exactly three fields,
      or its first field is not an integer. */
  datatype LoadError = BadFieldCount(line: nat) | BadChatId(line: nat)

  /** One line of the file: `chat_id, telefone, ativo = linha.strip().split(";")`,
      then `int(chat_id)` and `ativo == "1"`. */
  function ParseLine(line: string, n: nat): Result<Subscription, LoadError> {
    var fields := Split(Strip(line), ';');
    if |fields| != 3 then Err(BadFieldCount(n))
    else match ParseInt(fields[0])
      case None => Err(BadChatId(n))
      case Some(id) => Ok(Subscription(fields[1], Entry(id, fields[2] == "1")))
  }

  /** Each line of the file parsed on its own, numbered from 0. */
  function ParsedLines(lines: seq<string>): (rs: seq<Result<Subscription, LoadError>>)
    ensures |rs| == |lines| && forall i :: 0 <= i < |lines| ==> rs[i] == ParseLine(lines[i], i)
  {
    seq(|lines|, i requires 0 <= i < |lines| => ParseLine(lines[i], i))
  }

  /** The loop of `carregar_usuarios` over the parsed lines: each is stored
      with `usuarios[telefone] = ...`, and the first bad line aborts the load. */
  function Collect(rs: seq<Result<Subscription, LoadError>>): Result<Registry, LoadError>
    decreases |rs|
  {
    if rs == [] then Ok([])
    else match Collect(rs[..|rs| - 1])
      case Err(e) => Err(e)
      case Ok(r) =>
        match rs[|rs| - 1]
        case Err(e) => Err(e)
        case Ok(s) => Ok(Put(r, s.phone, s.entry))
  }

  /** Reading the text of the file: text mode, then line by line. */
  function Parse(text: string): Result<Registry, LoadError> {
    Collect(ParsedLines(Lines(Universal(text))))
  }

  /** `carregar_usuarios()`: a missing file is an empty registry. */
  function Load(file: Option<string>): Result<Registry, LoadError> {
    match file
    case None => Ok([])
    case Some(text) => Parse(text)
  }

  /** How a written line splits into its three fields. */
  lemma SplitLine(c: string, phone: string, flag: string)
    requires ';' !in c && ';' !in phone && ';' !in flag
    ensures Split(c + ";" + phone + ";" + flag, ';') == [c, phone, flag]
  {
    var t := phone + ";" + flag;
    assert c + ";" + phone + ";" + flag == c + [';'] + t;
    SplitCons(c, ';', t);
    SplitCons(phone, ';', flag);
    SplitNone(flag, ';');
  }

  /** The line rule: a chat id written by `str`, a phone and a flag, joined by
      ";", load as that chat and phone; the flag "1" is active and any other
      flag text inactive. */
  lemma LineRule(id: int, phone: string, flag: string, n: nat)
    requires ';' !in phone && ';' !in flag
    requires flag == [] || !IsSpace(flag[|flag| - 1])
    ensures ParseLine(IntToString(id) + ";" + phone + ";" + flag, n) == Ok(Subscription(phone, Entry(id, flag == "1")))
  {
    var c := IntToString(id);
    var line := c + ";" + phone + ";" + flag;
    assert line[0] == c[0];
    assert line[|line| - 1] == if flag == [] then ';' else flag[|flag| - 1];
    StripNoop(line);
    assert ';' !in c;
    SplitLine(c, phone, flag);
    IntRoundTrip(id);
  }

  /** Each line `salvar_usuarios` writes loads back as the item it came from. */
  lemma FormatParseLine(s: Subscription, n: nat)
    requires ';' !in s.phone
    ensures ParseLine(FormatLine(s), n) == Ok(s)
  {
    LineRule(s.entry.chatId, s.phone, FlagText(s.entry.active), n);
  }

  /** The field-count rule: a line fails with `BadFieldCount` exactly when its
      stripped text does not hold exactly two ";". */
  lemma FieldCountRule(line: string, n: nat)
    ensures ParseLine(line, n) == Err(BadFieldCount(n)) <==> Count(Strip(line), ';') != 2
  {
    SplitCount(Strip(line), ';');
  }

  /** No skipping: the load succeeds exactly when every line parses, and when
      it fails it reports the first line that does not. */
  lemma {:induction false} LoadAbortsOnFirstBadLine(rs: seq<Result<Subscription, LoadError>>)
    ensures Collect(rs).Ok? <==> forall i :: 0 <= i < |rs| ==> rs[i].Ok?
    ensures Collect(rs).Err? ==>
      exists i :: 0 <= i < |rs| && rs[i] == Err(Collect(rs).error) && forall j :: 0 <= j < i ==> rs[j].Ok?
    decreases |rs|
  {
    if rs != [] {
      var init := rs[..|rs| - 1];
      LoadAbortsOnFirstBadLine(init);
      assert forall i :: 0 <= i < |init| ==> init[i] == rs[i];
    }
  }

  /** The step the loop of `carregar_usuarios` relies on: once the lines before
      `i` have loaded, a bad line `i` is the load's error. */
  lemma {:induction false} CollectStopsAt(rs: seq<Result<Subscription, LoadError>>, i: nat)
    requires i < |rs| && Collect(rs[..i]).Ok? && rs[i].Err?
    ensures Collect(rs) == Err(rs[i].error)
    decreases |rs|
  {
    var n := |rs| - 1;
    var init := rs[..n];
    if i < n {
      assert init[..i] == rs[..i];
      CollectStopsAt(init, i);
      assert Collect(init).Err?;
    } else {
      assert init == rs[..i];
    }
  }

  /** Later lines win: once every line has parsed, the registry maps the phone
      of line `i` to that line's entry unless a later line names it too. */
  lemma {:induction false} LaterLineOverwrites(rs: seq<Result<Subscription, LoadError>>, i: nat)
    requires Collect(rs).Ok?
    requires i < |rs| && rs[i].Ok?
    requires forall j :: i < j < |rs| ==> rs[j].Ok? && rs[j].value.phone != rs[i].value.phone
    ensures Lookup(Collect(rs).value, rs[i].value.phone) == Some(rs[i].value.entry)
    decreases |rs|
  {
    var n := |rs| - 1;
    var init := rs[..n];
    assert Collect(init).Ok? && rs[n].Ok?;
    var r := Collect(init).value;
    var s := rs[n].value;
    assert Collect(rs).value == Put(r, s.phone, s.entry);
    if i < n {
      assert forall j :: 0 <= j < n ==> init[j] == rs[j];
      LaterLineOverwrites(init, i);
      PutLookupOther(r, s.phone, s.entry, rs[i].value.phone);
    } else {
      PutLookupSame(r, s.phone, s.entry);
    }
  }

  /** A phone that no line names is not in the loaded registry. */
  lemma {:induction false} UnnamedPhoneAbsent(rs: seq<Result<Subscription, LoadError>>, phone: string)
    requires Collect(rs).Ok?
    requires forall j :: 0 <= j < |rs| ==> rs[j].Ok? ==> rs[j].value.phone != phone
    ensures Lookup(Collect(rs).value, phone) == None
    decreases |rs|
  {
    if rs != [] {
      var n := |rs| - 1;
      var init := rs[..n];
      assert forall j :: 0 <= j < n ==> init[j] == rs[j];
      var s := rs[n].value;
      PutSemantics(Collect(init).value, s.phone, s.entry);
      UnnamedPhoneAbsent(init, phone);
    }
  }

  /** A load keeps the phones distinct, and storable when those of its
      lines are. */
  lemma {:induction false} CollectWellFormed(rs: seq<Result<Subscription, LoadError>>)
    requires Collect(rs).Ok?
    requires forall j :: 0 <= j < |rs| ==> rs[j].Ok? ==> Storable(rs[j].value.phone)
    ensures WellFormed(Collect(rs).value)
    decreases |rs|
  {
    if rs != [] {
      var n := |rs| - 1;
      var init := rs[..n];
      assert forall j :: 0 <= j < n ==> init[j] == rs[j];
      CollectWellFormed(init);
      var r := Collect(init).value;
      var s := rs[n].value;
      PutPhones(r, s.phone, s.entry);
      PutUnique(r, s.phone, s.entry);
      var r' := Put(r, s.phone, s.entry);
      forall i | 0 <= i < |r'|
        ensures Storable(r'[i].phone)
      {
        assert r'[i].phone == Phones(r')[i];
        if i < |r| {
          assert Phones(r')[i] == Phones(r)[i];
        }
      }
    }
  }

  /** The phone field of a line that did not hold "\n" or "\r" is storable. */
  lemma ParsedPhoneStorable(line: string, n: nat)
    requires '\n' !in line && '\r' !in line
    requires ParseLine(line, n).Ok?
    ensures Storable(ParseLine(line, n).value.phone)
  {
    var fields := Split(Strip(line), ';');
    assert ParseLine(line, n).value.phone == fields[1];
    forall c | c in fields[1]
      ensures c != ';' && c != '\n' && c != '\r'
    {
      SplitFields(Strip(line), ';', 1, c);
      StripChars(line, c);
    }
  }

  /** Whatever loads from a file is a registry the codec reproduces. */
  lemma LoadWellFormed(file: Option<string>)
    requires Load(file).Ok?
    ensures WellFormed(Load(file).value)
  {
    if file.Some? {
      var ls := Lines(Universal(file.value));
      var rs := ParsedLines(ls);
      forall j | 0 <= j < |rs| && rs[j].Ok?
        ensures Storable(rs[j].value.phone)
      {
        forall c | c in ls[j]
          ensures c != '\n' && c != '\r'
        {
          LinesChars(Universal(file.value), j, c);
        }
        ParsedPhoneStorable(ls[j], j);
      }
      CollectWellFormed(rs);
    }
  }

  /** No "\r" and one "\n" per item: the written text reads back in lines,
      one per item. */
  lemma LinesOfSerialize(r: Registry)
    requires forall i :: 0 <= i < |r| ==> Storable(r[i].phone)
    ensures '\r' !in Serialize(r)
    ensures Lines(Serialize(r)) == FormatLines(r)
  {
    var ls := FormatLines(r);
    forall i | 0 <= i < |ls|
      ensures '\n' !in ls[i] && '\r' !in ls[i]
    {
      var c := IntToString(r[i].entry.chatId);
      assert '\n' !in c && '\r' !in c;
      assert ls[i] == c + ";" + r[i].phone + ";" + FlagText(r[i].entry.active);
    }
    LinesOfTerminated(ls);
  }

  /** Loading a line-by-line image of a registry with distinct phones rebuilds it. */
  lemma {:induction false} CollectImage(r: Registry, rs: seq<Result<Subscription, LoadError>>)
    requires UniquePhones(r)
    requires |rs| == |r| && forall i :: 0 <= i < |r| ==> rs[i] == Ok(r[i])
    ensures Collect(rs) == Ok(r)
    decreases |r|
  {
    if r != [] {
      var n := |r| - 1;
      CollectImage(r[..n], rs[..n]);
      assert IndexOfPhone(r[..n], r[n].phone) == n;
      assert r[..n] + [r[n]] == r;
    }
  }

  /** Registry round trip: what `salvar_usuarios` writes, `carregar_usuarios`
      loads back as the same items in the same order. */
  lemma RoundTrip(r: Registry)
    requires WellFormed(r)
    ensures Load(Some(Serialize(r))) == Ok(r)
  {
    LinesOfSerialize(r);
    UniversalNoop(Serialize(r));
    var ls := Lines(Serialize(r));
    forall i | 0 <= i < |r|
      ensures ParseLine(ls[i], i) == Ok(r[i])
    {
      FormatParseLine(r[i], i);
    }
    CollectImage(r, ParsedLines(ls));
  }
}
