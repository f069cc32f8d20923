/** The text-translation panel: the source text with its undo history, the
    translated text, the two language choices, the translate button and the
    language swap. The translation server's answer to each request is an
    input; the zero-delay timer of the swap runs as part of the swap. */
module TextTranslate {
  import opened Wrappers

  /** An entry of the panel's language list; `autoDetect` marks detection. */
  datatype Language = Language(code: string, name: string, autoDetect: bool)

  const Languages: seq<Language> := [
    Language("AUTO", "自动检测", true),
    Language("ID", "印尼语", false),
    Language("ZH", "中文", false),
    Language("EN", "英语", false)]

  /** `find(lang => !lang.autoDetect)`: the position of the first entry that
      is not detection. */
  function FindFixed(ls: seq<Language>): (r: Option<nat>)
    ensures r.Some? ==> r.value < |ls| && !ls[r.value].autoDetect
    ensures r.Some? ==> forall j :: 0 <= j < r.value ==> ls[j].autoDetect
    ensures r.None? <==> forall j :: 0 <= j < |ls| ==> ls[j].autoDetect
  {
    if ls == [] then None
    else if !ls[0].autoDetect then Some(0)
    else
      match FindFixed(ls[1..])
      case None => None
      case Some(i) => Some(i + 1)
  }

  /** The target language after a swap: the old source language, or, when
      that was detection, the first fixed language of the list (`|| 'ZH'`
      when there is none), which is Indonesian. */
  function SwapTarget(sourceLang: string): (r: string)
    ensures sourceLang == "AUTO" ==> r == "ID"
    ensures sourceLang != "AUTO" ==> r == sourceLang
  {
    if sourceLang == "AUTO" then
      assert FindFixed(Languages) == Some(1) by {
        assert Languages[1..][0] == Language("ID", "印尼语", false);
      }
      match FindFixed(Languages)
      case Some(i) => if Languages[i].code != "" then Languages[i].code else "ZH"
      case None => "ZH"
    else sourceLang
  }

  /** The characters ECMAScript's `String.prototype.trim` removes: white
      space and line terminators. */
  predicate IsJsSpace(c: char) {
    ('\t' <= c <= '\r') || c == ' ' || c == '\U{A0}' || c == '\U{1680}'
    || ('\U{2000}' <= c <= '\U{200A}') || c == '\U{2028}' || c == '\U{2029}'
    || c == '\U{202F}' || c == '\U{205F}' || c == '\U{3000}' || c == '\U{FEFF}'
  }

  /** `!s.trim()`: nothing is left once the white space is trimmed. */
  predicate JsBlank(s: string) {
    forall i :: 0 <= i < |s| ==> IsJsSpace(s[i])
  }

  /** A translation request: the text and the target language. */
  datatype TextRequest = TextRequest(text: string, targetLang: string)

  /** How a request ended: an exception with its message (the network, a
      body that is not JSON or holds no translation), an error status with
      the body's text, or the first translation of the answer. */
  datatype TextReply = Thrown(message: string) | NotOk(body: string) | Translated(text: string)

  /** The message of the error the reply raises, none for a translation. */
  function Raised(reply: TextReply): (r: Option<string>)
    ensures r.None? <==> reply.Translated?
    ensures reply.NotOk? ==> r == Some(reply.body)
    ensures reply.Thrown? ==> r == Some(reply.message)
  {
    match reply
    case Thrown(m) => Some(m)
    case NotOk(body) => Some(body)
    case Translated(_) => None
  }

  const TranslationFailed := "error.translationFailed"

  /** The panel's state; `index` is `historyIndex`. */
  datatype Editor = Editor(
    sourceText: string,
    translatedText: string,
    error: string,
    sourceLang: string,
    targetLang: string,
    history: seq<string>,
    index: int,
    requests: seq<TextRequest>)

  const Initial := Editor("", "", "", "AUTO", "ZH", [], -1, [])

  /** The index names an entry of the history, -1 exactly when it is empty;
      the source text is the entry it names, and empty when there is none. */
  predicate HistoryValid(e: Editor) {
    -1 <= e.index < |e.history|
    && (e.index == -1 <==> e.history == [])
    && (e.index == -1 ==> e.sourceText == "")
    && (e.index >= 0 ==> e.sourceText == e.history[e.index])
  }

  /** handleTextChange: the entries up to the current one are kept, the new
      text follows them and becomes current; later entries are dropped. */
  function Edit(e: Editor, text: string): (r: Editor)
    requires HistoryValid(e)
    ensures HistoryValid(r) && r.sourceText == text && r.index == e.index + 1
    ensures |r.history| == r.index + 1 && r.history[..r.index] == e.history[..e.index + 1]
    ensures r.translatedText == e.translatedText && r.error == e.error
    ensures r.sourceLang == e.sourceLang && r.targetLang == e.targetLang && r.requests == e.requests
  {
    var kept := e.history[..e.index + 1];
    assert (kept + [text])[..|kept|] == kept;
    e.(sourceText := text, history := kept + [text], index := e.index + 1)
  }

  /** handleClear: no text and no history; the translation stays. */
  function Clear(e: Editor): (r: Editor)
    ensures HistoryValid(r) && r.history == [] && r.index == -1 && r.sourceText == ""
    ensures r.translatedText == e.translatedText && r.error == e.error
    ensures r.sourceLang == e.sourceLang && r.targetLang == e.targetLang && r.requests == e.requests
  {
    e.(sourceText := "", history := [], index := -1)
  }

  /** handleUndo: back one entry when there is an earlier one; the history
      itself never changes. The undo button is enabled exactly when this
      changes something. */
  function Undo(e: Editor): (r: Editor)
    requires HistoryValid(e)
    ensures HistoryValid(r) && r.history == e.history
    ensures r != e <==> e.index > 0
    ensures e.index > 0 ==> r.index == e.index - 1
    ensures r.translatedText == e.translatedText && r.error == e.error
    ensures r.sourceLang == e.sourceLang && r.targetLang == e.targetLang && r.requests == e.requests
  {
    if e.index > 0 then e.(index := e.index - 1, sourceText := e.history[e.index - 1]) else e
  }

  /** handleRedo: forward one entry when there is a later one; the history
      itself never changes. The redo button is enabled exactly when this
      changes something. */
  function Redo(e: Editor): (r: Editor)
    requires HistoryValid(e)
    ensures HistoryValid(r) && r.history == e.history
    ensures r != e <==> e.index < |e.history| - 1
    ensures e.index < |e.history| - 1 ==> r.index == e.index + 1
    ensures r.translatedText == e.translatedText && r.error == e.error
    ensures r.sourceLang == e.sourceLang && r.targetLang == e.targetLang && r.requests == e.requests
  {
    if e.index < |e.history| - 1 then e.(index := e.index + 1, sourceText := e.history[e.index + 1]) else e
  }

  /** handleTranslate: nothing for a blank text; otherwise the error is
      cleared and the text is sent with the target language, and the answer
      becomes the translation, or a failure shows the generic message. */
  function Translate(e: Editor, reply: TextReply): (r: Editor)
    ensures JsBlank(e.sourceText) ==> r == e
    ensures !JsBlank(e.sourceText) ==>
      r.requests == e.requests + [TextRequest(e.sourceText, e.targetLang)]
      && (reply.Translated? ==> r.translatedText == reply.text && r.error == "")
      && (!reply.Translated? ==> r.translatedText == e.translatedText && r.error == TranslationFailed)
    ensures r.sourceText == e.sourceText && r.history == e.history && r.index == e.index
    ensures r.sourceLang == e.sourceLang && r.targetLang == e.targetLang
    ensures HistoryValid(e) ==> HistoryValid(r)
  {
    if JsBlank(e.sourceText) then e
    else
      var sent := e.(error := "", requests := e.requests + [TextRequest(e.sourceText, e.targetLang)]);
      match reply
      case Translated(t) => sent.(translatedText := t)
      case _ => sent.(error := TranslationFailed)
  }

  /** handleSwapLanguages: nothing without a translation. Otherwise the
      languages change places (detection becoming Indonesian), the
      translation becomes the source text, entered in the history as an
      edit, and is sent for translation; a failure shows the error's message
      and puts the old source text back as the translation. */
  function Swap(e: Editor, reply: TextReply): (r: Editor)
    requires HistoryValid(e)
    ensures e.translatedText == "" ==> r == e
    ensures e.translatedText != "" ==>
      r.sourceLang == e.targetLang && r.targetLang == SwapTarget(e.sourceLang)
      && r.sourceText == e.translatedText
      && r.history == e.history[..e.index + 1] + [e.translatedText] && r.index == e.index + 1
      && r.requests == e.requests + [TextRequest(e.translatedText, SwapTarget(e.sourceLang))]
      && (reply.Translated? ==> r.translatedText == reply.text && r.error == e.error)
      && (!reply.Translated? ==> r.translatedText == e.sourceText && r.error == Raised(reply).value)
    ensures HistoryValid(r)
  {
    if e.translatedText == "" then e
    else
      var newTarget := SwapTarget(e.sourceLang);
      var swapped := Edit(e, e.translatedText).(
        sourceLang := e.targetLang, targetLang := newTarget, translatedText := "",
        requests := e.requests + [TextRequest(e.translatedText, newTarget)]);
      match reply
      case Translated(t) => swapped.(translatedText := t)
      case _ => swapped.(error := Raised(reply).value, translatedText := e.sourceText)
  }

  /** An undo followed by a redo comes back to the same state. */
  lemma UndoThenRedo(e: Editor)
    requires HistoryValid(e) && e.index > 0
    ensures Redo(Undo(e)) == e
  {
  }

  /** A redo followed by an undo comes back to the same state. */
  lemma RedoThenUndo(e: Editor)
    requires HistoryValid(e) && e.index < |e.history| - 1
    ensures Undo(Redo(e)) == e
  {
  }

  /** An edit after an undo replaces the entry that was undone and every
      entry after it: the history ends with the new text, and there is
      nothing left to redo. */
  lemma EditAfterUndo(e: Editor, text: string)
    requires HistoryValid(e) && e.index > 0
    ensures var r := Edit(Undo(e), text);
      r.history == e.history[..e.index] + [text] && Redo(r) == r
  {
    var u := Undo(e);
    assert u.history[..u.index + 1] == e.history[..e.index];
  }

  /** The panel starts empty with a valid history, detecting the source
      language and translating to Chinese. */
  lemma InitialValid()
    ensures HistoryValid(Initial) && Initial.sourceLang == "AUTO" && Initial.targetLang == "ZH"
  {
  }

  /** Two swaps, each answered with a translation, bring both languages back
      when neither was detection, and the second answer is the source text. */
  lemma SwapTwice(e: Editor, first: string, reply: TextReply)
    requires HistoryValid(e) && e.translatedText != "" && first != ""
    requires e.sourceLang != "AUTO" && e.targetLang != "AUTO"
    ensures var s := Swap(e, Translated(first));
      var t := Swap(s, reply);
      t.sourceLang == e.sourceLang && t.targetLang == e.targetLang && t.sourceText == first
      && t.history == e.history[..e.index + 1] + [e.translatedText, first]
  {
    var s := Swap(e, Translated(first));
    assert s.history[..s.index + 1] == s.history;
    assert e.history[..e.index + 1] + [e.translatedText] + [first]
      == e.history[..e.index + 1] + [e.translatedText, first];
  }

  /** The panel: the same state held in fields that the handlers update. */
  class TextTranslator {
    var sourceText: string
    var translatedText: string
    var error: string
    var sourceLang: string
    var targetLang: string
    var history: seq<string>
    var historyIndex: int
    var requests: seq<TextRequest>

    function State(): Editor
      reads this
    {
      Editor(sourceText, translatedText, error, sourceLang, targetLang, history, historyIndex, requests)
    }

    predicate Valid()
      reads this
    {
      HistoryValid(State())
    }

    constructor ()
      ensures State() == Initial && Valid()
    {
      sourceText := "";
      translatedText := "";
      error := "";
      sourceLang := "AUTO";
      targetLang := "ZH";
      history := [];
      historyIndex := -1;
      requests := [];
    }

    method HandleTextChange(text: string)
      requires Valid()
      modifies this
      ensures State() == Edit(old(State()), text) && Valid()
    {
      sourceText := text;
      history := history[..historyIndex + 1] + [text];
      historyIndex := historyIndex + 1;
    }

    method HandleClear()
      modifies this
      ensures State() == Clear(old(State())) && Valid()
    {
      sourceText := "";
      history := [];
      historyIndex := -1;
    }

    method HandleUndo()
      requires Valid()
      modifies this
      ensures State() == Undo(old(State())) && Valid()
    {
      if historyIndex > 0 {
        historyIndex := historyIndex - 1;
        sourceText := history[historyIndex];
      }
    }

    method HandleRedo()
      requires Valid()
      modifies this
      ensures State() == Redo(old(State())) && Valid()
    {
      if historyIndex < |history| - 1 {
        historyIndex := historyIndex + 1;
        sourceText := history[historyIndex];
      }
    }

    method HandleTranslate(reply: TextReply)
      modifies this
      ensures State() == Translate(old(State()), reply)
      ensures old(Valid()) ==> Valid()
    {
      if JsBlank(sourceText) {
        return;
      }
      error := "";
      requests := requests + [TextRequest(sourceText, targetLang)];
      match reply
      case Translated(t) =>
        translatedText := t;
      case _ =>
        error := TranslationFailed;
    }

    method HandleSwapLanguages(reply: TextReply)
      requires Valid()
      modifies this
      ensures State() == Swap(old(State()), reply) && Valid()
    {
      if translatedText == "" {
        return;
      }
      var newSourceLang := targetLang;
      var newTargetLang := SwapTarget(sourceLang);
      var newSourceText := translatedText;
      var newTranslatedText := sourceText;
      sourceLang := newSourceLang;
      targetLang := newTargetLang;
      sourceText := newSourceText;
      translatedText := "";
      history := history[..historyIndex + 1] + [newSourceText];
      historyIndex := historyIndex + 1;
      // the zero-delay timer
      requests := requests + [TextRequest(newSourceText, newTargetLang)];
      match reply
      case Translated(t) =>
        translatedText := t;
      case _ =>
        error := Raised(reply).value;
        translatedText := newTranslatedText;
    }
  }
}
