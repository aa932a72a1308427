/** `TtsManager`: a wrapper around the platform text-to-speech engine that queues texts until
    the engine reports a successful initialisation and remembers one completion listener.
    The engine itself is not modelled; the manager's effect on it is the trace of calls it
    makes. `L` is the type of completion listeners. */
module TtsManager {
  import opened Wrappers

  datatype Locale = Locale(language: string, country: string)

  /** The engine language chosen once initialisation succeeds. */
  const DefaultLocale := Locale("en", "IN")

  /** One call the manager makes on the engine. Rates and pitches are the Float arguments. */
  datatype EngineCall =
    | UseAlarmStream            // audio attributes with usage ALARM, content type SPEECH
    | SetLanguage(locale: Locale)
    | InstallProgressListener
    | SpeakQueued(text: string) // QUEUE_ADD on the alarm stream, utterance id "UPI_ALERT_ID"
    | SetRate(rate: real)
    | SetPitch(pitch: real)
    | Stop
    | Shutdown

  /** `initialized` is `isInitialized`, `pending` the `pendingQueue`, `listener` the
      `onSpeechLimitListener`, and `engine` every call made on the engine so far. */
  datatype Tts<L> = Tts(initialized: bool, pending: seq<string>, listener: Option<L>, engine: seq<EngineCall>)

  /** Texts wait in the queue only until initialisation succeeds. */
  predicate Valid<L>(t: Tts<L>) {
    t.initialized ==> t.pending == []
  }

  /** The texts handed to the engine, in order. */
  function Spoken(calls: seq<EngineCall>): (r: seq<string>)
    ensures |r| <= |calls|
  {
    if |calls| == 0 then []
    else (if calls[|calls| - 1].SpeakQueued? then Spoken(calls[..|calls| - 1]) + [calls[|calls| - 1].text]
          else Spoken(calls[..|calls| - 1]))
  }

  lemma SpokenAppend(calls: seq<EngineCall>, c: EngineCall)
    ensures Spoken(calls + [c]) == if c.SpeakQueued? then Spoken(calls) + [c.text] else Spoken(calls)
  {
    assert (calls + [c])[..|calls|] == calls;
  }

  /** Every text asked for so far, in the order asked: those given to the engine, then those waiting. */
  function Requested<L>(t: Tts<L>): seq<string> {
    Spoken(t.engine) + t.pending
  }

  /** A manager just constructed: the engine is created, its initialisation is pending. */
  function Create<L>(): (t: Tts<L>)
    ensures Valid(t) && !t.initialized && Requested(t) == [] && t.listener.None?
  {
    Tts(false, [], None, [])
  }

  /** `speak(text, onComplete)`: the listener is replaced (also by an absent one); the text
      goes to the engine if it is ready and to the queue otherwise. */
  function Speak<L>(t: Tts<L>, text: string, onComplete: Option<L>): (r: Tts<L>)
    requires Valid(t)
    ensures Valid(r) && r.initialized == t.initialized
    ensures r.listener == onComplete && t.engine <= r.engine
    ensures Requested(r) == Requested(t) + [text]
    ensures t.initialized ==> r.engine == t.engine + [SpeakQueued(text)] && Spoken(r.engine) == Spoken(t.engine) + [text]
    ensures !t.initialized ==> r.engine == t.engine && r.pending == t.pending + [text]
  {
    if t.initialized then
      SpokenAppend(t.engine, SpeakQueued(text));
      t.(listener := onComplete, engine := t.engine + [SpeakQueued(text)])
    else
      t.(listener := onComplete, pending := t.pending + [text])
  }

  /** `processQueue`: drains the queue front to back, speaking each text with the listener
      already stored. */
  function ProcessQueue<L>(t: Tts<L>): (r: Tts<L>)
    requires t.initialized
    ensures Valid(r) && r.initialized && r.listener == t.listener
    ensures Requested(r) == Requested(t)
    ensures t.engine <= r.engine
    decreases |t.pending|
  {
    if |t.pending| == 0 then t
    else
      var text := t.pending[0];
      var rest := t.pending[1..];
      SpokenAppend(t.engine, SpeakQueued(text));
      assert t.pending == [text] + rest;
      ProcessQueue(Tts(true, rest, t.listener, t.engine + [SpeakQueued(text)]))
  }

  /** The engine's initialisation callback. On success the manager switches the engine to the
      alarm stream and Indian English, installs the progress listener and drains the queue;
      on failure nothing changes and later texts keep queueing. */
  function OnInit<L>(t: Tts<L>, success: bool): (r: Tts<L>)
    requires Valid(t)
    ensures Valid(r) && Requested(r) == Requested(t) && r.listener == t.listener
    ensures success ==> r.initialized && r.pending == []
    ensures !success ==> r == t
  {
    if success then
      var calls := t.engine + [UseAlarmStream, SetLanguage(DefaultLocale), InstallProgressListener];
      SpokenAppend(t.engine, UseAlarmStream);
      SpokenAppend(t.engine + [UseAlarmStream], SetLanguage(DefaultLocale));
      SpokenAppend(t.engine + [UseAlarmStream, SetLanguage(DefaultLocale)], InstallProgressListener);
      assert t.engine + [UseAlarmStream] + [SetLanguage(DefaultLocale)] == t.engine + [UseAlarmStream, SetLanguage(DefaultLocale)];
      assert t.engine + [UseAlarmStream, SetLanguage(DefaultLocale)] + [InstallProgressListener] == calls;
      ProcessQueue(t.(initialized := true, engine := calls))
    else t
  }

  /** `onDone` and `onError` of the progress listener: the listener to invoke, which is the
      one most recently passed to `speak`. Before a successful initialisation no progress
      listener is installed, so nothing is invoked. */
  function OnUtteranceFinished<L>(t: Tts<L>): (r: Option<L>)
    ensures r.Some? <==> t.initialized && t.listener.Some?
    ensures r.Some? ==> r == t.listener
  {
    if t.initialized then t.listener else None
  }

  /** A pass-through call (`setLanguage`, `setRate`, `setPitch`, `stop`, `shutdown`). */
  function Call<L>(t: Tts<L>, c: EngineCall): (r: Tts<L>)
    requires !c.SpeakQueued?
    ensures r.initialized == t.initialized && r.pending == t.pending && r.listener == t.listener
    ensures Requested(r) == Requested(t)
    ensures r.engine == t.engine + [c]
  {
    SpokenAppend(t.engine, c);
    t.(engine := t.engine + [c])
  }

  // ---------------------------------------------------------------- properties

  /** A text queued before initialisation reaches the engine right after the calls that
      initialisation makes. */
  lemma InitSpeaksPending<L>(t: Tts<L>, text: string)
    requires !t.initialized && t.pending == [text]
    ensures OnInit(t, true).engine == t.engine + [UseAlarmStream, SetLanguage(DefaultLocale), InstallProgressListener, SpeakQueued(text)]
  {
    var calls := t.engine + [UseAlarmStream, SetLanguage(DefaultLocale), InstallProgressListener];
    var t2 := t.(initialized := true, engine := calls);
    assert t2.pending[1..] == [];
    assert ProcessQueue(t2) == ProcessQueue(Tts(true, [], t2.listener, calls + [SpeakQueued(text)]));
  }

  /** Speaking a list of texts one after another. */
  function SpeakAll<L>(t: Tts<L>, texts: seq<string>, onComplete: Option<L>): (r: Tts<L>)
    requires Valid(t)
    ensures Valid(r) && r.initialized == t.initialized
    decreases |texts|
  {
    if |texts| == 0 then t else SpeakAll(Speak(t, texts[0], onComplete), texts[1..], onComplete)
  }

  /** Nothing asked for is lost or reordered, whether or not the engine is ready yet. */
  lemma {:induction false} SpeakAllRequests<L>(t: Tts<L>, texts: seq<string>, onComplete: Option<L>)
    requires Valid(t)
    ensures Requested(SpeakAll(t, texts, onComplete)) == Requested(t) + texts
    decreases |texts|
  {
    if |texts| > 0 {
      SpeakAllRequests(Speak(t, texts[0], onComplete), texts[1..], onComplete);
      assert texts == [texts[0]] + texts[1..];
    }
  }

  /** Texts spoken before the engine is ready reach it, in order, as soon as it is. */
  lemma QueuedTextsSpokenOnInit<L>(texts: seq<string>, onComplete: Option<L>)
    ensures var t := OnInit(SpeakAll(Create<L>(), texts, onComplete), true);
      Spoken(t.engine) == texts && t.pending == []
  {
    var q := SpeakAll(Create<L>(), texts, onComplete);
    SpeakAllRequests(Create<L>(), texts, onComplete);
    assert Requested(q) == [] + texts == texts;
    var t := OnInit(q, true);
    assert Requested(t) == texts;
    assert Spoken(t.engine) + [] == Spoken(t.engine);
  }

  /** Before the engine is ready nothing reaches it; after a failed initialisation that stays so. */
  lemma {:induction false} FailedInitKeepsQueueing<L>(t: Tts<L>, texts: seq<string>, onComplete: Option<L>)
    requires Valid(t) && !t.initialized
    ensures var r := SpeakAll(OnInit(t, false), texts, onComplete);
      r.engine == t.engine && r.pending == t.pending + texts
    decreases |texts|
  {
    if |texts| > 0 {
      FailedInitKeepsQueueing(Speak(t, texts[0], onComplete), texts[1..], onComplete);
      assert t.pending + [texts[0]] + texts[1..] == t.pending + texts;
    }
  }

  /** Only the last listener survives: the completion of any utterance invokes the listener
      passed to the most recent `speak`. */
  lemma LastListenerWins<L>(t: Tts<L>, a: string, la: Option<L>, b: string, lb: Option<L>)
    requires Valid(t) && t.initialized
    ensures OnUtteranceFinished(Speak(Speak(t, a, la), b, lb)) == lb
  {
  }
}
