/** The text side of `SoundboxService.onStartCommand`: the quiet-hours schedule, the way the
    amount is printed, and the sentence spoken in each of the ten supported languages. */
module Announcements {
  import opened Wrappers
  import opened Text
  import opened Decimal
  import opened UpiParser
  import opened TtsManager

  // ---------------------------------------------------------------- quiet hours

  const MinutesPerDay := 1440

  /** Whether `now` lies in the mute window from `start` to `end`, all in minutes since
      midnight. A window whose start is later than its end runs overnight; otherwise it is
      the same-day interval `[start, end)`, empty when the two are equal. */
  predicate InMuteWindow(start: int, end: int, now: int) {
    if start > end then now >= start || now < end
    else now >= start && now < end
  }

  /** A reference definition: the window is the set of minutes reached by walking forward
      from `start` for fewer than `(end - start) mod 1440` minutes. */
  lemma InMuteWindowIsCircularInterval(start: int, end: int, now: int)
    requires 0 <= start < MinutesPerDay && 0 <= end < MinutesPerDay && 0 <= now < MinutesPerDay
    ensures InMuteWindow(start, end, now) <==> (now - start) % MinutesPerDay < (end - start) % MinutesPerDay
  {
    ForwardDistance(start, now);
    ForwardDistance(start, end);
  }

  lemma ForwardDistance(a: int, b: int)
    requires 0 <= a < MinutesPerDay && 0 <= b < MinutesPerDay
    ensures (b - a) % MinutesPerDay == if b >= a then b - a else b - a + MinutesPerDay
  {
  }

  /** The settings the service reads from the `upi_settings` preferences. */
  datatype Settings = Settings(
    voiceEnabled: bool,
    scheduleEnabled: bool,
    muteStartHour: int,
    muteStartMinute: int,
    muteEndHour: int,
    muteEndMinute: int,
    language: string,
    voiceSpeed: real)

  /** The defaults used for keys that were never written. */
  const DefaultSettings := Settings(true, false, 22, 0, 6, 0, "English", 1.0)

  /** The quiet-hours check at `hour:minute` of the device clock. */
  predicate IsMuted(s: Settings, hour: int, minute: int) {
    s.scheduleEnabled &&
    InMuteWindow(s.muteStartHour * 60 + s.muteStartMinute, s.muteEndHour * 60 + s.muteEndMinute, hour * 60 + minute)
  }

  /** With the default 22:00 to 06:00 schedule switched on, 22:00 up to 05:59 is quiet and
      06:00 up to 21:59 is not. */
  lemma DefaultScheduleIsOvernight(hour: int, minute: int)
    requires 0 <= hour < 24 && 0 <= minute < 60
    ensures IsMuted(DefaultSettings.(scheduleEnabled := true), hour, minute) <==> hour >= 22 || hour < 6
  {
  }

  /** Equal start and end times never mute. */
  lemma EmptyWindowNeverMutes(s: Settings, hour: int, minute: int)
    requires s.muteStartHour * 60 + s.muteStartMinute == s.muteEndHour * 60 + s.muteEndMinute
    ensures !IsMuted(s, hour, minute)
  {
  }

  // ---------------------------------------------------------------- the amount

  /** `Int.MAX_VALUE`, where `Double.toInt()` saturates. */
  const IntMax := 2147483647

  /** The fraction of a non-integral amount as `Double.toString` prints it: one digit when
      the paise are a multiple of ten, two otherwise. */
  function FractionText(f: nat): (r: string)
    requires 0 < f < 100
    ensures IsFraction(r) && |r| >= 2 && FractionPaise(r) == f
  {
    if f % 10 == 0 then ['.', DigitChar(f / 10)] else ['.', DigitChar(f / 10), DigitChar(f % 10)]
  }

  /** `Double.toString` at or above ten million: one digit, the point, the remaining
      significant digits and the decimal exponent. */
  function Scientific(p: nat): (r: string)
    requires p % 100 != 0 && p >= 1_000_000_000
    ensures '.' in r && 'E' in r
  {
    var d := NatToString(p);
    var digits := if p % 10 == 0 then d[..|d| - 1] else d;
    var r := [digits[0]] + "." + digits[1..] + "E" + NatToString(|NatToString(p / 100)| - 1);
    assert r[1] == '.' && r[|digits| + 1] == 'E';
    r
  }

  /** `formattedAmount` for an amount of `p` paise: a whole amount prints through `toInt()`
      (which saturates at `Int.MAX_VALUE`) with no fraction; any other through
      `Double.toString`. */
  function FormatAmount(p: nat): (r: string)
    ensures |r| >= 1
    ensures '.' in r <==> p % 100 != 0
  {
    if p % 100 == 0 then NatToString(if p / 100 > IntMax then IntMax else p / 100)
    else if p < 1_000_000_000 then
      var r := NatToString(p / 100) + FractionText(p % 100);
      assert r[|NatToString(p / 100)|] == '.';
      r
    else Scientific(p)
  }

  /** Below ten million rupees the printed amount reads back, through the parser's own
      number conversion, as the same number of paise. */
  lemma FormatAmountRoundTrip(p: nat)
    requires p < 1_000_000_000
    ensures IsPlainDecimal(FormatAmount(p)) && ToPaise(FormatAmount(p)) == Some(p)
  {
    var a := NatToString(p / 100);
    NatToStringRoundTrip(p / 100);
    var f := if p % 100 == 0 then "" else FractionText(p % 100);
    var s := FormatAmount(p);
    assert s == a + f;
    PlainDecimalOf(a, f);
    assert FractionPaise(f) == p % 100;
    assert ToPaise(s) == Some(DigitsValue(a) * 100 + FractionPaise(f));
  }

  lemma FormatAmountInjective(p: nat, q: nat)
    requires p < 1_000_000_000 && q < 1_000_000_000
    requires FormatAmount(p) == FormatAmount(q)
    ensures p == q
  {
    FormatAmountRoundTrip(p);
    FormatAmountRoundTrip(q);
  }

  // ---------------------------------------------------------------- the sentence

  /** The languages of the `when (lang)` switch; any other setting speaks English. */
  datatype Language = Hindi | Malayalam | Bengali | Gujarati | Kannada | Marathi | Tamil | Telugu | Urdu | English

  function LanguageOf(setting: string): (l: Language)
    ensures l != English ==> setting in {"Hindi", "Malayalam", "Bengali", "Gujarati", "Kannada", "Marathi", "Tamil", "Telugu", "Urdu"}
  {
    match setting
    case "Hindi" => Hindi
    case "Malayalam" => Malayalam
    case "Bengali" => Bengali
    case "Gujarati" => Gujarati
    case "Kannada" => Kannada
    case "Marathi" => Marathi
    case "Tamil" => Tamil
    case "Telugu" => Telugu
    case "Urdu" => Urdu
    case _ => English
  }

  /** The shape of a sentence. `SenderFirst`: `lead + sender + link + amount + tail`, or
      `bare + amount + tail` without a sender. `AmountFirst`: `lead + amount + link + sender`,
      or `lead + amount` without a sender. */
  datatype Phrase =
    | SenderFirst(lead: string, link: string, tail: string, bare: string)
    | AmountFirst(lead: string, link: string)

  function PhraseOf(l: Language): Phrase {
    match l
    case Hindi => SenderFirst(" ", " se ₹", " रुपये प्राप्त हुए", " ₹")
    case Malayalam => SenderFirst("", " ", "രൂപ പേയ്\U{200C}മെന്റ് ചെയ്തിരിക്കുന്നു", "")
    case Bengali => SenderFirst("", " ের থেকে ₹", " প্রাপ্ত হয়েছে", "₹")
    case Gujarati => SenderFirst("", " તરફથી ₹", " મળ્યા છે", "₹")
    case Kannada => SenderFirst("", " ರವರಿಂದ ₹", " ಸ್ವೀಕರಿಸಲಾಗಿದೆ", "₹")
    case Marathi => SenderFirst("", " कडून ₹", " प्राप्त झाले", "₹")
    case Tamil => SenderFirst("", " இடமிருந்து ₹", " பெறப்பட்டது", "₹")
    case Telugu => SenderFirst("", " నుండి ₹", " స్వీకరించబడింది", "₹")
    case Urdu => SenderFirst("", " سے ₹", " وصول ہوئے", "₹")
    case English => AmountFirst("Received ₹", " from ")
  }

  function LocaleOf(l: Language): Locale {
    match l
    case Hindi => Locale("hi", "IN")
    case Malayalam => Locale("ml", "IN")
    case Bengali => Locale("bn", "IN")
    case Gujarati => Locale("gu", "IN")
    case Kannada => Locale("kn", "IN")
    case Marathi => Locale("mr", "IN")
    case Tamil => Locale("ta", "IN")
    case Telugu => Locale("te", "IN")
    case Urdu => Locale("ur", "IN")
    case English => DefaultLocale
  }

  /** The language's base speech rate: Malayalam is slowed down, every other language is not. */
  function BaseRate(l: Language): real {
    if l == Malayalam then 0.85 else 1.0
  }

  /** A sender is named unless it is empty or the placeholder "Unknown". */
  predicate IncludesSender(sender: string) {
    |sender| > 0 && sender != "Unknown"
  }

  function Compose(ph: Phrase, amount: string, sender: string): string {
    match ph
    case SenderFirst(lead, link, tail, bare) =>
      if IncludesSender(sender) then lead + sender + link + amount + tail else bare + amount + tail
    case AmountFirst(lead, link) =>
      if IncludesSender(sender) then lead + amount + link + sender else lead + amount
  }

  /** The sentence announcing `p` paise from `sender` in the configured language. */
  function AnnouncementText(setting: string, p: nat, sender: string): string {
    Compose(PhraseOf(LanguageOf(setting)), FormatAmount(p), sender)
  }

  /** An unnamed sender ("" or "Unknown") leaves no trace in the sentence. */
  lemma UnnamedSenderIgnored(ph: Phrase, amount: string, s: string, t: string)
    requires !IncludesSender(s) && !IncludesSender(t)
    ensures Compose(ph, amount, s) == Compose(ph, amount, t)
  {
  }

  lemma CancelAround(x: string, a: string, b: string, y: string)
    requires x + a + y == x + b + y
    ensures a == b
  {
    assert |a| == |b|;
    assert a == (x + a + y)[|x|..|x| + |a|];
    assert b == (x + b + y)[|x|..|x| + |b|];
  }

  /** The printed amount appears in the sentence, and so does the sender exactly when it is
      named. */
  lemma ComposeMentions(ph: Phrase, amount: string, sender: string)
    ensures exists k :: OccursAt(Compose(ph, amount, sender), amount, k)
    ensures IncludesSender(sender) ==> exists k :: OccursAt(Compose(ph, amount, sender), sender, k)
  {
    var r := Compose(ph, amount, sender);
    match ph
    case SenderFirst(lead, link, tail, bare) =>
      if IncludesSender(sender) {
        assert OccursAt(r, sender, |lead|) by {
          assert r[|lead|..|lead| + |sender|] == sender;
        }
        assert OccursAt(r, amount, |lead| + |sender| + |link|) by {
          assert r[|lead| + |sender| + |link|..|lead| + |sender| + |link| + |amount|] == amount;
        }
      } else {
        assert OccursAt(r, amount, |bare|) by {
          assert r[|bare|..|bare| + |amount|] == amount;
        }
      }
    case AmountFirst(lead, link) =>
      assert OccursAt(r, amount, |lead|) by {
        assert r[|lead|..|lead| + |amount|] == amount;
      }
      if IncludesSender(sender) {
        assert OccursAt(r, sender, |lead| + |amount| + |link|) by {
          assert r[|lead| + |amount| + |link|..] == sender;
        }
      }
  }

  /** Different amounts are never announced alike to the same sender. */
  lemma ComposeAmountInjective(ph: Phrase, a: string, b: string, sender: string)
    requires Compose(ph, a, sender) == Compose(ph, b, sender)
    ensures a == b
  {
    match ph
    case SenderFirst(lead, link, tail, bare) =>
      if IncludesSender(sender) {
        CancelAround(lead + sender + link, a, b, tail);
      } else {
        CancelAround(bare, a, b, tail);
      }
    case AmountFirst(lead, link) =>
      if IncludesSender(sender) {
        assert lead + a + link + sender == lead + a + (link + sender);
        assert lead + b + link + sender == lead + b + (link + sender);
        CancelAround(lead, a, b, link + sender);
      } else {
        CancelAround(lead, a, b, "");
      }
  }

  /** Different named senders are never announced alike for the same amount. */
  lemma ComposeSenderInjective(ph: Phrase, amount: string, s: string, t: string)
    requires IncludesSender(s) && IncludesSender(t)
    requires Compose(ph, amount, s) == Compose(ph, amount, t)
    ensures s == t
  {
    match ph
    case SenderFirst(lead, link, tail, bare) =>
      assert lead + s + link + amount + tail == lead + s + (link + amount + tail);
      assert lead + t + link + amount + tail == lead + t + (link + amount + tail);
      CancelAround(lead, s, t, link + amount + tail);
    case AmountFirst(lead, link) =>
      CancelAround(lead + amount + link, s, t, "");
  }

  /** Below ten million rupees, two announcements in the same language to the same sender
      are equal only for equal amounts. */
  lemma AnnouncementDistinguishesAmounts(setting: string, p: nat, q: nat, sender: string)
    requires p < 1_000_000_000 && q < 1_000_000_000
    requires AnnouncementText(setting, p, sender) == AnnouncementText(setting, q, sender)
    ensures p == q
  {
    ComposeAmountInjective(PhraseOf(LanguageOf(setting)), FormatAmount(p), FormatAmount(q), sender);
    FormatAmountInjective(p, q);
  }
}
