/**
 * The `oshifier.localize` command: check the selection, extract the template and the
 * placeholders from its body, settle on a fresh id, then reuse the first message whose
 * translation is the template or append a new message, and render the replacement.
 *
 * Reconcile states the whole command as one function of the selection, the catalog and the
 * ids drawn; Localize is the handler itself, changing the catalog in place, proved to do
 * what Reconcile says.
 */
module Localize {
  import opened Wrappers
  import opened Text
  import opened Selection
  import opened Extractor
  import opened Catalog
  import opened Renderer

  /** Why the command stops without a replacement. */
  datatype Failure =
    | InvalidSelection  // the selection is not a quoted string
    | NoFreshId         // every id drawn is already in the catalog

  /** What the command leaves behind: the text the selection is replaced with, and the
      catalog that is then persisted. */
  datatype Outcome = Outcome(replacement: string, messages: seq<Message>)

  /** The command as one function of its inputs. */
  function Reconcile(selection: string, messages: seq<Message>, draws: seq<string>)
    : Result<Outcome, Failure>
  {
    if !IsValidSelection(selection) then Err(InvalidSelection)
    else
      var pieces := Scan(Body(selection));
      var template, placeholders := Template(pieces), Placeholders(pieces);
      match FreshId(messages, draws)
      case None => Err(NoFreshId)
      case Some(id) =>
        match FindByTranslation(messages, template)
        case Some(j) => Ok(Outcome(Render(messages[j].id, placeholders), messages))
        case None => Ok(Outcome(Render(id, placeholders), messages + [Message(id, template)]))
  }

  /** The handler. It changes the catalog only by appending, and only on a miss. */
  method Localize(selection: string, store: Store, draws: seq<string>)
    returns (replacement: Result<string, Failure>)
    modifies store
    ensures var r := Reconcile(selection, old(store.messages), draws);
      && (r.Ok? <==> replacement.Ok?)
      && (r.Ok? ==> replacement.value == r.value.replacement && store.messages == r.value.messages)
      && (r.Err? ==> replacement.error == r.error && store.messages == old(store.messages))
  {
    if selection == "" || (!StartsWith(selection, "'") && !StartsWith(selection, "\""))
      || (!EndsWith(selection, "'") && !EndsWith(selection, "\""))
    {
      return Err(InvalidSelection);
    }
    var body := Slice(selection, 1, -1);
    var template, placeholders := Extract(body);
    var id := AllocateId(store.messages, draws);
    if id.None? {
      return Err(NoFreshId);
    }
    var existing := FindByTranslation(store.messages, template);
    if existing.Some? {
      replacement := Ok(Render(store.messages[existing.value].id, placeholders));
    } else {
      store.Push(Message(id.value, template));
      replacement := Ok(Render(id.value, placeholders));
    }
  }

  // ---- Properties of the command ----

  /** The command refuses exactly the selections that are not quoted strings. */
  lemma ReconcileRejectsIff(selection: string, messages: seq<Message>, draws: seq<string>)
    ensures Reconcile(selection, messages, draws) == Err(InvalidSelection) <==>
      !(|selection| > 0 && IsQuote(selection[0]) && IsQuote(selection[|selection| - 1]))
  {
    ValidSelectionIff(selection);
  }

  /** On a hit the catalog is left as it is, and the replacement refers to the first message
      whose translation is the template. */
  lemma ReconcileHit(selection: string, messages: seq<Message>, draws: seq<string>)
    requires IsValidSelection(selection) && FreshId(messages, draws).Some?
    requires FindByTranslation(messages, Template(Scan(Body(selection)))).Some?
    ensures var j := FindByTranslation(messages, Template(Scan(Body(selection)))).value;
      && Reconcile(selection, messages, draws)
        == Ok(Outcome(Render(messages[j].id, Placeholders(Scan(Body(selection)))), messages))
      && messages[j].translation == Template(Scan(Body(selection)))
      && forall i :: 0 <= i < j ==> messages[i].translation != Template(Scan(Body(selection)))
  {
  }

  /** On a miss one message is appended: the fresh id with the template as its translation;
      every earlier message is kept where it was, and no earlier message has that id. */
  lemma ReconcileMiss(selection: string, messages: seq<Message>, draws: seq<string>)
    requires IsValidSelection(selection) && FreshId(messages, draws).Some?
    requires FindByTranslation(messages, Template(Scan(Body(selection)))).None?
    ensures var id := FreshId(messages, draws).value;
      var template := Template(Scan(Body(selection)));
      && Reconcile(selection, messages, draws)
        == Ok(Outcome(Render(id, Placeholders(Scan(Body(selection)))),
                      messages + [Message(id, template)]))
      && (forall i :: 0 <= i < |messages| ==> messages[i].translation != template)
      && (forall i :: 0 <= i < |messages| ==> messages[i].id != id)
  {
    FreshIdIsFresh(messages, draws);
  }

  /** Whatever the command does, the ids of the catalog stay pairwise distinct, and the
      catalog only ever grows by one message at its end. */
  lemma ReconcileKeepsUniqueIds(selection: string, messages: seq<Message>, draws: seq<string>)
    requires UniqueIds(messages)
    requires Reconcile(selection, messages, draws).Ok?
    ensures UniqueIds(Reconcile(selection, messages, draws).value.messages)
    ensures var after := Reconcile(selection, messages, draws).value.messages;
      after == messages || (|after| == |messages| + 1 && after[..|messages|] == messages)
  {
    var template := Template(Scan(Body(selection)));
    FreshIdIsFresh(messages, draws);
    if FindByTranslation(messages, template).None? {
      var id := FreshId(messages, draws).value;
      AppendFreshKeepsUniqueIds(messages, Message(id, template));
      assert (messages + [Message(id, template)])[..|messages|] == messages;
    }
  }

  /** The template stored on a miss and the placeholders rendered come from the body, which
      is the selection without its first and last character. */
  lemma ReconcileUsesBody(selection: string, messages: seq<Message>, draws: seq<string>)
    requires |selection| >= 2 && IsQuote(selection[0]) && IsQuote(selection[|selection| - 1])
    requires '$' !in selection[1..|selection| - 1]
    requires FreshId(messages, draws).Some?
    requires FindByTranslation(messages, selection[1..|selection| - 1]).None?
    ensures var id := FreshId(messages, draws).value;
      Reconcile(selection, messages, draws)
        == Ok(Outcome(Reference(id), messages + [Message(id, selection[1..|selection| - 1])]))
  {
    ValidSelectionIff(selection);
    var body := Body(selection);
    assert selection == [selection[0]] + body + [selection[|selection| - 1]];
    assert body == selection[1..|selection| - 1];
    NoSigilUnchanged(body);
  }

  // ---- The whole command on a selection with one interpolation ----

  /** A quoted selection made of plain text and one closing `${x}`: it passes the guard, its
      template is the text followed by `{}`, and x is its one placeholder. */
  lemma QuotedBraceAtEnd(selection: string, pre: string, x: string)
    requires '$' !in pre && |x| > 0 && '}' !in x
    requires selection == "'" + pre + "${" + x + "}" + "'"
    ensures IsValidSelection(selection)
    ensures Template(Scan(Body(selection))) == pre + "{}"
    ensures Placeholders(Scan(Body(selection))) == [x]
  {
    ValidSelectionIff(selection);
    var body := pre + "${" + x + "}";
    assert selection == [selection[0]] + body + [selection[|selection| - 1]];
    assert Body(selection) == body;
    ExtractBraceAtEnd(pre, x);
  }

  /** Against an empty catalog, `'<pre>${x}'` stores the message (id, `<pre>{}`) under the
      first draw and becomes `'<id>'.localized.format(<x>)`. */
  lemma BraceAtEndMiss(pre: string, x: string, id: string)
    requires '$' !in pre && |x| > 0 && '}' !in x
    ensures Reconcile("'" + pre + "${" + x + "}" + "'", [], [id])
      == Ok(Outcome("'" + id + "'.localized.format(" + x + ")", [Message(id, pre + "{}")]))
  {
    var selection := "'" + pre + "${" + x + "}" + "'";
    QuotedBraceAtEnd(selection, pre, x);
    assert FreshId([], [id]) == Some(id);
    ReconcileMiss(selection, [], [id]);
    RenderSingle(id, x);
    assert [] + [Message(id, pre + "{}")] == [Message(id, pre + "{}")];
  }

  /** Against a catalog that already holds (id, `<pre>{}`), `'<pre>${x}'` reuses that id with
      its own placeholder and leaves the catalog as it is, whatever free id was drawn. */
  lemma BraceAtEndHit(pre: string, x: string, id: string, draw: string)
    requires '$' !in pre && |x| > 0 && '}' !in x && draw != id
    ensures Reconcile("'" + pre + "${" + x + "}" + "'", [Message(id, pre + "{}")], [draw])
      == Ok(Outcome("'" + id + "'.localized.format(" + x + ")", [Message(id, pre + "{}")]))
  {
    var selection := "'" + pre + "${" + x + "}" + "'";
    var messages := [Message(id, pre + "{}")];
    QuotedBraceAtEnd(selection, pre, x);
    assert !HasId(messages, draw);
    assert FreshId(messages, [draw]) == Some(draw);
    assert FindByTranslation(messages, pre + "{}") == Some(0);
    ReconcileHit(selection, messages, [draw]);
    RenderSingle(id, x);
  }

  /** A miss: `'Hi ${name}'` against an empty catalog, with the draw "X", appends the message
      ("X", "Hi {}") and is replaced by `'X'.localized.format(name)`. */
  lemma ExampleMiss()
    ensures Reconcile("'Hi ${name}'", [], ["X"])
      == Ok(Outcome("'X'.localized.format(name)", [Message("X", "Hi {}")]))
  {
    assert "'" + "Hi " + "${" + "name" + "}" + "'" == "'Hi ${name}'";
    assert "'" + "X" + "'.localized.format(" + "name" + ")" == "'X'.localized.format(name)";
    assert "Hi " + "{}" == "Hi {}";
    BraceAtEndMiss("Hi ", "name", "X");
  }

  /** A hit: `'Hi ${other}'` against a catalog that already holds ("X", "Hi {}") reuses "X"
      with the new placeholder, and leaves the catalog as it is. */
  lemma ExampleHit()
    ensures Reconcile("'Hi ${other}'", [Message("X", "Hi {}")], ["Y"])
      == Ok(Outcome("'X'.localized.format(other)", [Message("X", "Hi {}")]))
  {
    assert "'" + "Hi " + "${" + "other" + "}" + "'" == "'Hi ${other}'";
    assert "'" + "X" + "'.localized.format(" + "other" + ")" == "'X'.localized.format(other)";
    assert "Hi " + "{}" == "Hi {}";
    BraceAtEndHit("Hi ", "other", "X", "Y");
  }
}
