/** `SoundboxService`: the foreground service that turns start requests into speech. It keeps
    a partial wake lock, raises the alarm-stream volume to its maximum while an announcement
    is spoken and puts it back when the speech completes. The audio manager's alarm-stream
    volume and the wake lock are part of the state; the clock, the preferences and whether
    restoring the volume throws are parameters. */
module SoundboxService {
  import opened Wrappers
  import opened TtsManager
  import opened Announcements

  const ActionSpeak := "com.upialert.action.SPEAK"

  /** A start request. `amount` is the `EXTRA_AMOUNT` Double in paise, `sender` the
      `EXTRA_SENDER` string and `message` the `EXTRA_MESSAGE` string; absent extras are None. */
  datatype Intent = Intent(action: Option<string>, amount: Option<int>, sender: Option<string>, message: Option<string>)

  /** `getDoubleExtra("EXTRA_AMOUNT", -1.0)`: a missing amount reads as minus one rupee. */
  const MissingAmount := -100

  /** `SoundboxService.start`: no action. */
  function StartIntent(): Intent {
    Intent(None, None, None, None)
  }

  /** `SoundboxService.speakAmount(amount, senderName)`. */
  function SpeakAmountIntent(amount: int, senderName: string): Intent {
    Intent(Some(ActionSpeak), Some(amount), Some(senderName), None)
  }

  /** `SoundboxService.speak(message)`; its `onComplete` argument is never used. */
  function SpeakIntent(message: string): Intent {
    Intent(Some(ActionSpeak), None, None, Some(message))
  }

  /** The only completion listener the service registers: `finishWork`. */
  datatype Callback = FinishWorkCallback

  /** `volume` and `maxVolume` are the alarm stream's current and maximum volume;
      `originalVolume` is the saved volume, -1 until the first announcement; `wakeLockHeld`,
      `foreground` and `stopped` follow the wake lock, `startForeground`/`stopForeground`
      and `stopSelf`. */
  datatype Service = Service(
    volume: int,
    maxVolume: int,
    originalVolume: int,
    wakeLockHeld: bool,
    foreground: bool,
    stopped: bool,
    tts: Tts<Callback>)

  predicate Valid(s: Service) {
    && TtsManager.Valid(s.tts)
    && 0 <= s.volume <= s.maxVolume
    && (s.originalVolume == -1 || 0 <= s.originalVolume <= s.maxVolume)
  }

  /** `onCreate`: a new text-to-speech manager, the wake lock acquired, the service in the
      foreground. */
  function Create(volume: int, maxVolume: int): (s: Service)
    requires 0 <= volume <= maxVolume
    ensures Valid(s) && s.wakeLockHeld && s.foreground && !s.stopped
    ensures s.originalVolume == -1 && s.volume == volume && Requested(s.tts) == []
  {
    Service(volume, maxVolume, -1, true, true, false, TtsManager.Create())
  }

  /** `finishWork`. Restoring the volume and releasing the wake lock share one `try`: when
      restoring throws, the lock stays held. Leaving the foreground and stopping always happen. */
  function FinishWork(s: Service, restoreFails: bool): (r: Service)
    requires Valid(s)
    ensures Valid(r) && r.stopped && !r.foreground && r.tts == s.tts && r.originalVolume == s.originalVolume
    ensures s.originalVolume != -1 && restoreFails ==> r.volume == s.volume && r.wakeLockHeld == s.wakeLockHeld
    ensures !(s.originalVolume != -1 && restoreFails) ==>
      !r.wakeLockHeld && r.volume == (if s.originalVolume != -1 then s.originalVolume else s.volume)
  {
    var s' := s.(foreground := false, stopped := true);
    if s.originalVolume == -1 then s'.(wakeLockHeld := false)
    else if restoreFails then s'
    else s'.(volume := s.originalVolume, wakeLockHeld := false)
  }

  /** The engine calls that pick the voice: the language's locale, then its rate scaled by
      the user's speed. */
  function VoiceCalls(lang: Language, speed: real): seq<EngineCall> {
    [SetLanguage(LocaleOf(lang)), SetRate(BaseRate(lang) * speed)]
  }

  /** `setLanguage(locale)` then `setRate(rate * userSpeed)`. */
  function SetVoice(t: Tts<Callback>, lang: Language, speed: real): (r: Tts<Callback>)
    requires TtsManager.Valid(t)
    ensures TtsManager.Valid(r) && r.engine == t.engine + VoiceCalls(lang, speed)
    ensures r.initialized == t.initialized && r.pending == t.pending && r.listener == t.listener
    ensures Requested(r) == Requested(t)
  {
    var t0 := Call(t, SetLanguage(LocaleOf(lang)));
    assert t0.engine + [SetRate(BaseRate(lang) * speed)] == t.engine + VoiceCalls(lang, speed);
    Call(t0, SetRate(BaseRate(lang) * speed))
  }

  /** The part of `onStartCommand` for a positive amount: the voice switch, the schedule,
      then language, rate, volume and speech. */
  function Announce(s: Service, amount: nat, sender: string, settings: Settings, hour: int, minute: int, restoreFails: bool): (r: Service)
    requires Valid(s)
    ensures Valid(r)
    ensures !settings.voiceEnabled || IsMuted(settings, hour, minute) ==>
      r == FinishWork(s, restoreFails) && Requested(r.tts) == Requested(s.tts)
    ensures settings.voiceEnabled && !IsMuted(settings, hour, minute) ==>
      && Requested(r.tts) == Requested(s.tts) + [AnnouncementText(settings.language, amount, sender)]
      && r.volume == r.maxVolume == s.maxVolume && r.originalVolume == s.volume
      && r.tts.listener == Some(FinishWorkCallback)
      && r.stopped == s.stopped && r.wakeLockHeld == s.wakeLockHeld && r.foreground == s.foreground
      && r.tts.engine == s.tts.engine + VoiceCalls(LanguageOf(settings.language), settings.voiceSpeed)
           + (if s.tts.initialized then [SpeakQueued(AnnouncementText(settings.language, amount, sender))] else [])
      && r.tts.initialized == s.tts.initialized
      && r.tts.pending == s.tts.pending + (if s.tts.initialized then [] else [AnnouncementText(settings.language, amount, sender)])
  {
    if !settings.voiceEnabled || IsMuted(settings, hour, minute) then FinishWork(s, restoreFails)
    else
      var t := SetVoice(s.tts, LanguageOf(settings.language), settings.voiceSpeed);
      s.(originalVolume := s.volume, volume := s.maxVolume,
         tts := Speak(t, AnnouncementText(settings.language, amount, sender), Some(FinishWorkCallback)))
  }

  /** `onStartCommand` of a running instance. */
  function OnStartCommand(s: Service, intent: Option<Intent>, settings: Settings, hour: int, minute: int, restoreFails: bool): (r: Service)
    requires Valid(s) && !s.stopped
    ensures Valid(r)
    ensures s.originalVolume != -1 ==> r.originalVolume != -1
    ensures r.wakeLockHeld ==> s.wakeLockHeld
  {
    if intent.None? || intent.value.action != Some(ActionSpeak) then FinishWork(s, restoreFails)
    else
      var i := intent.value;
      var amount := i.amount.GetOr(MissingAmount);
      if amount > 0 then Announce(s, amount, i.sender.GetOr(""), settings, hour, minute, restoreFails)
      else match i.message
        case Some(m) => s.(tts := Speak(s.tts, m, Some(FinishWorkCallback)))
        case None => FinishWork(s, restoreFails)
  }

  /** The engine's initialisation callback. */
  function OnTtsInit(s: Service, success: bool): (r: Service)
    requires Valid(s)
    ensures Valid(r) && r == s.(tts := r.tts) && Requested(r.tts) == Requested(s.tts)
  {
    s.(tts := OnInit(s.tts, success))
  }

  /** `onDone` or `onError` of the current utterance: runs the stored listener, if any. */
  function OnUtteranceDone(s: Service, restoreFails: bool): (r: Service)
    requires Valid(s)
    ensures Valid(r)
    ensures r.wakeLockHeld ==> s.wakeLockHeld
    ensures s.tts.initialized && s.tts.listener.Some? ==> r == FinishWork(s, restoreFails)
    ensures !(s.tts.initialized && s.tts.listener.Some?) ==> r == s
  {
    match OnUtteranceFinished(s.tts)
    case Some(FinishWorkCallback) => FinishWork(s, restoreFails)
    case None => s
  }

  /** The user changes the alarm volume. */
  function SetUserVolume(s: Service, v: int): (r: Service)
    requires Valid(s) && 0 <= v <= s.maxVolume
    ensures Valid(r) && r.volume == v && r == s.(volume := v)
  {
    s.(volume := v)
  }

  /** A start request as the platform delivers it. `finishWork` ends the instance with
      `stopSelf`, so a request after that reaches a new instance: `onCreate` runs first, with a
      new engine and no saved volume, against the same alarm stream. */
  function Deliver(s: Service, intent: Option<Intent>, settings: Settings, hour: int, minute: int, restoreFails: bool): (r: Service)
    requires Valid(s)
    ensures Valid(r) && r.maxVolume == s.maxVolume
    ensures s.stopped ==> r.originalVolume == -1 || r.originalVolume == s.volume
    ensures s.stopped ==> |Requested(r.tts)| <= 1
    ensures !s.stopped && s.originalVolume != -1 ==> r.originalVolume != -1
  {
    var live := if s.stopped then Create(s.volume, s.maxVolume) else s;
    OnStartCommand(live, intent, settings, hour, minute, restoreFails)
  }

  /** `onDestroy`: the engine is shut down and the wake lock released. */
  function OnDestroy(s: Service): (r: Service)
    requires Valid(s)
    ensures Valid(r) && !r.wakeLockHeld && Requested(r.tts) == Requested(s.tts)
    ensures r.tts.engine == s.tts.engine + [Shutdown] && r == s.(tts := r.tts, wakeLockHeld := false)
  {
    s.(tts := Call(s.tts, Shutdown), wakeLockHeld := false)
  }

  // ---------------------------------------------------------------- properties

  /** A request without the speak action, or no request at all (as sent by `start`), only
      finishes the work. */
  lemma NonSpeakRequestFinishes(s: Service, intent: Option<Intent>, settings: Settings, hour: int, minute: int, restoreFails: bool)
    requires Valid(s) && !s.stopped && (intent.None? || intent.value.action != Some(ActionSpeak))
    ensures OnStartCommand(s, intent, settings, hour, minute, restoreFails) == FinishWork(s, restoreFails)
  {
  }

  /** With the voice switched off, or inside quiet hours, an amount is not spoken, the volume
      is not raised and nothing new is saved. */
  lemma SilencedAmountNotSpoken(s: Service, amount: int, sender: string, settings: Settings, hour: int, minute: int, restoreFails: bool)
    requires Valid(s) && !s.stopped && amount > 0
    requires !settings.voiceEnabled || IsMuted(settings, hour, minute)
    ensures var r := OnStartCommand(s, Some(SpeakAmountIntent(amount, sender)), settings, hour, minute, restoreFails);
      r == FinishWork(s, restoreFails) && Requested(r.tts) == Requested(s.tts) && r.originalVolume == s.originalVolume
  {
  }

  /** An accepted amount is spoken once, in the configured language's sentence, with the
      volume at its maximum and the previous volume saved. */
  lemma AmountSpoken(s: Service, amount: int, sender: string, settings: Settings, hour: int, minute: int, restoreFails: bool)
    requires Valid(s) && !s.stopped && amount > 0
    requires settings.voiceEnabled && !IsMuted(settings, hour, minute)
    ensures var r := OnStartCommand(s, Some(SpeakAmountIntent(amount, sender)), settings, hour, minute, restoreFails);
      && Requested(r.tts) == Requested(s.tts) + [AnnouncementText(settings.language, amount, sender)]
      && r.volume == s.maxVolume && r.originalVolume == s.volume
      && r.tts.listener == Some(FinishWorkCallback) && !r.stopped && r.wakeLockHeld == s.wakeLockHeld
  {
  }

  /** A request with no positive amount but a message speaks the message verbatim and leaves
      the volume alone. */
  lemma MessageSpokenVerbatim(s: Service, intent: Intent, settings: Settings, hour: int, minute: int, restoreFails: bool)
    requires Valid(s) && !s.stopped && intent.action == Some(ActionSpeak) && intent.amount.GetOr(MissingAmount) <= 0
    requires intent.message.Some?
    ensures var r := OnStartCommand(s, Some(intent), settings, hour, minute, restoreFails);
      && Requested(r.tts) == Requested(s.tts) + [intent.message.value]
      && r.volume == s.volume && r.originalVolume == s.originalVolume
  {
  }

  /** Within one instance the wake lock is acquired only by `onCreate`: once released, no
      request and no completion takes it again. */
  lemma WakeLockNeverReacquired(s: Service, intent: Option<Intent>, settings: Settings, hour: int, minute: int, restoreFails: bool)
    requires Valid(s) && !s.wakeLockHeld && !s.stopped
    ensures !OnStartCommand(s, intent, settings, hour, minute, restoreFails).wakeLockHeld
    ensures !OnUtteranceDone(s, restoreFails).wakeLockHeld
  {
  }

  /** One announcement on a new instance whose engine has already initialised: the volume is
      raised while it is spoken and put back afterwards, the lock is released and the service
      stops. */
  lemma OneAnnouncementRestoresVolume(volume: int, maxVolume: int, amount: int, sender: string, settings: Settings, hour: int, minute: int)
    requires 0 <= volume <= maxVolume && amount > 0
    requires settings.voiceEnabled && !IsMuted(settings, hour, minute)
    ensures var s1 := OnTtsInit(Create(volume, maxVolume), true);
      var s2 := OnStartCommand(s1, Some(SpeakAmountIntent(amount, sender)), settings, hour, minute, false);
      var s3 := OnUtteranceDone(s2, false);
      && s2.volume == maxVolume
      && Spoken(s2.tts.engine) == [AnnouncementText(settings.language, amount, sender)]
      && s3.volume == volume && !s3.wakeLockHeld && s3.stopped
  {
    var s1 := OnTtsInit(Create(volume, maxVolume), true);
    var s2 := OnStartCommand(s1, Some(SpeakAmountIntent(amount, sender)), settings, hour, minute, false);
    assert Requested(s1.tts) == [];
    assert Requested(s2.tts) == [AnnouncementText(settings.language, amount, sender)];
    assert Spoken(s2.tts.engine) + [] == Spoken(s2.tts.engine);
  }

  /** When restoring the volume throws, the volume stays at its maximum and the wake lock
      stays held, though the service still stops. */
  lemma RestoreFailureKeepsLock(s: Service)
    requires Valid(s) && s.originalVolume != -1
    ensures var r := FinishWork(s, true);
      r.volume == s.volume && r.wakeLockHeld == s.wakeLockHeld && r.stopped
  {
  }

  /** The saved volume is never cleared within an instance: a plain message that arrives while
      an announcement is still being spoken, after the user changed the volume, is finished by
      putting back the level saved before that announcement. */
  lemma StaleVolumeRestored(s: Service, v: int, message: string, settings: Settings, hour: int, minute: int)
    requires Valid(s) && !s.stopped && s.originalVolume != -1 && 0 <= v <= s.maxVolume && s.tts.initialized
    ensures var s1 := OnStartCommand(SetUserVolume(s, v), Some(SpeakIntent(message)), settings, hour, minute, false);
      OnUtteranceDone(s1, false).volume == s.originalVolume
  {
  }

  /** A speak request with no positive amount and no message only finishes the work. */
  lemma EmptySpeakRequestFinishes(s: Service, intent: Intent, settings: Settings, hour: int, minute: int, restoreFails: bool)
    requires Valid(s) && !s.stopped
    requires intent.action == Some(ActionSpeak) && intent.amount.GetOr(MissingAmount) <= 0 && intent.message.None?
    ensures var r := OnStartCommand(s, Some(intent), settings, hour, minute, restoreFails);
      r == FinishWork(s, restoreFails) && Requested(r.tts) == Requested(s.tts) && r.stopped
  {
  }

  /** The order every payment takes: the request reaches a new instance before its engine has
      initialised, so the sentence waits in the queue; initialisation speaks it, and its
      completion puts the volume back, releases the lock and stops the service. */
  lemma FreshServiceAnnouncement(volume: int, maxVolume: int, amount: int, sender: string, settings: Settings, hour: int, minute: int)
    requires 0 <= volume <= maxVolume && amount > 0
    requires settings.voiceEnabled && !IsMuted(settings, hour, minute)
    ensures var s1 := OnStartCommand(Create(volume, maxVolume), Some(SpeakAmountIntent(amount, sender)), settings, hour, minute, false);
      var s2 := OnTtsInit(s1, true);
      var s3 := OnUtteranceDone(s2, false);
      && Spoken(s1.tts.engine) == [] && s1.volume == maxVolume
      && Spoken(s2.tts.engine) == [AnnouncementText(settings.language, amount, sender)]
      && s3.volume == volume && !s3.wakeLockHeld && s3.stopped
  {
    var s1 := OnStartCommand(Create(volume, maxVolume), Some(SpeakAmountIntent(amount, sender)), settings, hour, minute, false);
    var s2 := OnTtsInit(s1, true);
    assert Requested(s2.tts) == [AnnouncementText(settings.language, amount, sender)];
    assert Spoken(s2.tts.engine) + [] == Spoken(s2.tts.engine);
  }

  /** In that order the engine's own initialisation sets Indian English after the configured
      language was set, so the sentence of the configured language is read in the default
      locale. */
  lemma InitLocaleOverridesLanguage(volume: int, maxVolume: int, amount: int, sender: string, settings: Settings, hour: int, minute: int)
    requires 0 <= volume <= maxVolume && amount > 0
    requires settings.voiceEnabled && !IsMuted(settings, hour, minute)
    ensures var s1 := OnStartCommand(Create(volume, maxVolume), Some(SpeakAmountIntent(amount, sender)), settings, hour, minute, false);
      var lang := LanguageOf(settings.language);
      OnTtsInit(s1, true).tts.engine ==
        VoiceCalls(lang, settings.voiceSpeed)
        + [UseAlarmStream, SetLanguage(DefaultLocale), InstallProgressListener,
           SpeakQueued(AnnouncementText(settings.language, amount, sender))]
  {
    var text := AnnouncementText(settings.language, amount, sender);
    var s1 := OnStartCommand(Create(volume, maxVolume), Some(SpeakAmountIntent(amount, sender)), settings, hour, minute, false);
    RequestQueuesAnnouncement(volume, maxVolume, amount, sender, settings, hour, minute);
    InitSpeaksQueued(s1, text);
  }

  /** On a new instance the voice calls reach the engine at once while the sentence waits. */
  lemma RequestQueuesAnnouncement(volume: int, maxVolume: int, amount: int, sender: string, settings: Settings, hour: int, minute: int)
    requires 0 <= volume <= maxVolume && amount > 0
    requires settings.voiceEnabled && !IsMuted(settings, hour, minute)
    ensures var t := OnStartCommand(Create(volume, maxVolume), Some(SpeakAmountIntent(amount, sender)), settings, hour, minute, false).tts;
      && t.engine == VoiceCalls(LanguageOf(settings.language), settings.voiceSpeed)
      && t.pending == [AnnouncementText(settings.language, amount, sender)] && !t.initialized
  {
    var s0 := Create(volume, maxVolume);
    var lang := LanguageOf(settings.language);
    SpeakRequestAnnounces(s0, amount, sender, settings, hour, minute);
    assert [] + VoiceCalls(lang, settings.voiceSpeed) + [] == VoiceCalls(lang, settings.voiceSpeed);
  }

  /** A successful initialisation speaks the one queued text after its own engine calls. */
  lemma InitSpeaksQueued(s: Service, text: string)
    requires Valid(s) && !s.tts.initialized && s.tts.pending == [text]
    ensures OnTtsInit(s, true).tts.engine
      == s.tts.engine + [UseAlarmStream, SetLanguage(DefaultLocale), InstallProgressListener, SpeakQueued(text)]
  {
    InitSpeaksPending(s.tts, text);
  }

  /** A speak request with a positive amount is handled by `Announce`. */
  lemma SpeakRequestAnnounces(s: Service, amount: int, sender: string, settings: Settings, hour: int, minute: int)
    requires Valid(s) && !s.stopped && amount > 0
    ensures OnStartCommand(s, Some(SpeakAmountIntent(amount, sender)), settings, hour, minute, false)
      == Announce(s, amount, sender, settings, hour, minute, false)
  {
  }

  /** When the engine fails to initialise, the announcement is never spoken and never
      completes: the volume stays at its maximum, the lock stays held and the service keeps
      running. */
  lemma FailedInitLeavesVolumeRaised(volume: int, maxVolume: int, amount: int, sender: string, settings: Settings, hour: int, minute: int, restoreFails: bool)
    requires 0 <= volume <= maxVolume && amount > 0
    requires settings.voiceEnabled && !IsMuted(settings, hour, minute)
    ensures var s1 := OnStartCommand(Create(volume, maxVolume), Some(SpeakAmountIntent(amount, sender)), settings, hour, minute, false);
      var s2 := OnTtsInit(s1, false);
      && Spoken(s2.tts.engine) == [] && s2.volume == maxVolume && s2.wakeLockHeld && !s2.stopped
      && OnUtteranceDone(s2, restoreFails) == s2
  {
  }

  /** After a finished announcement a later plain message reaches a new instance, which has
      no saved volume: whatever level the user set stays when that message completes. */
  lemma NoStaleRestoreAfterStop(s: Service, v: int, message: string, settings: Settings, hour: int, minute: int)
    requires Valid(s) && s.stopped && 0 <= v <= s.maxVolume
    ensures var s1 := Deliver(SetUserVolume(s, v), Some(SpeakIntent(message)), settings, hour, minute, false);
      var s2 := OnUtteranceDone(OnTtsInit(s1, true), false);
      s1.originalVolume == -1 && s2.volume == v && !s2.wakeLockHeld && s2.stopped
  {
  }
}
