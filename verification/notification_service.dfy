/** `NotificationService.onNotificationPosted`: which posted notifications become stored
    transactions and spoken announcements. The database and the announcement are the two
    effects; the debug dump to shared preferences and logging are not modelled. */
module NotificationService {
  import opened Wrappers
  import opened Text
  import opened UpiParser
  import opened TransactionDao

  /** The parts of a `StatusBarNotification` the listener reads: the posting package and
      the `android.title`, `android.text` and `android.bigText` extras. */
  datatype Posted = Posted(packageName: string, title: Option<string>, text: Option<string>, bigText: Option<string>)

  /** What `SoundboxService.speakAmount` is asked to say. */
  datatype Announcement = Announcement(amount: nat, senderName: string)

  /** The database after the notification, and the announcement requested, if any. */
  datatype Outcome = Outcome(store: Store, announcement: Option<Announcement>)

  /** The text handed to the parser: `android.text`, or `android.bigText` when there is none. */
  function BodyText(n: Posted): (r: Option<string>)
    ensures n.text.Some? ==> r == n.text
    ensures n.text.None? ==> r == n.bigText
  {
    if n.text.Some? then n.text else n.bigText
  }

  /** Kotlin string templates render an absent value as "null". */
  function Render(s: Option<string>): string {
    s.GetOr("null")
  }

  /** `"$title | $text"`. */
  function RawMessage(title: Option<string>, text: Option<string>): string {
    Render(title) + " | " + Render(text)
  }

  /** The sender is taken from the title only. The guards match without regard to case, but
      `substringBefore(" paid you")` and `substringAfter("received from")` are case-sensitive
      and the first also needs the leading space; a title with neither phrase, or none at
      all, gives the title itself or "Unknown". */
  function SenderName(title: Option<string>): (r: string)
    ensures title.None? ==> r == "Unknown"
    ensures title.Some? && !ContainsIgnoreCase(title.value, "paid you") && !ContainsIgnoreCase(title.value, "received from")
      ==> r == title.value
    ensures title.Some? && ContainsIgnoreCase(title.value, "paid you") ==> r == Trim(SubstringBefore(title.value, " paid you"))
    ensures title.Some? && !ContainsIgnoreCase(title.value, "paid you") && ContainsIgnoreCase(title.value, "received from")
      ==> r == Trim(SubstringAfter(title.value, "received from"))
  {
    match title
    case None => "Unknown"
    case Some(t) =>
      if ContainsIgnoreCase(t, "paid you") then Trim(SubstringBefore(t, " paid you"))
      else if ContainsIgnoreCase(t, "received from") then Trim(SubstringAfter(t, "received from"))
      else t
  }

  /** The row written for a credited amount; `id` 0 asks the database for a fresh key. */
  function TransactionFor(n: Posted, amount: nat, now: int): (e: TransactionEntity)
    ensures e.id == 0 && e.amount == amount && e.appPackage == n.packageName && e.timestamp == now
    ensures e.senderName == SenderName(n.title) && e.rawMessage == RawMessage(n.title, BodyText(n))
  {
    TransactionEntity(0, amount, n.packageName, SenderName(n.title), now, RawMessage(n.title, BodyText(n)))
  }

  /** `onNotificationPosted`. `ownPackage` is the application's own package, `now` the clock
      and `saveFails` whether the database insert throws; the announcement is requested only
      after the row has been saved. */
  function OnNotificationPosted(ownPackage: string, sbn: Option<Posted>, now: int, saveFails: bool, s: Store): (r: Outcome)
    requires Valid(s)
    ensures Valid(r.store)
    ensures r.announcement.None? ==> r.store == s
    ensures r.announcement.Some? ==>
      && sbn.Some?
      && Insert(s, TransactionFor(sbn.value, r.announcement.value.amount, now)).Success?
      && r.store == Insert(s, TransactionFor(sbn.value, r.announcement.value.amount, now)).value
  {
    match sbn
    case None => Outcome(s, None)
    case Some(n) =>
      if n.packageName == ownPackage || !IsSupportedPackage(n.packageName) then Outcome(s, None)
      else
        match ParseAmount(n.title, BodyText(n))
        case None => Outcome(s, None)
        case Some(amount) =>
          if amount == 0 || saveFails then Outcome(s, None)
          else
            var e := TransactionFor(n, amount, now);
            match Insert(s, e)
            case Failure(_) => Outcome(s, None)
            case Success(s') => Outcome(s', Some(Announcement(amount, e.senderName)))
  }

  // ---------------------------------------------------------------- properties

  /** The service's own foreground notification is never processed. */
  lemma OwnNotificationIgnored(ownPackage: string, n: Posted, now: int, saveFails: bool, s: Store)
    requires Valid(s) && n.packageName == ownPackage
    ensures OnNotificationPosted(ownPackage, Some(n), now, saveFails, s) == Outcome(s, None)
  {
  }

  /** A notification is recorded and announced exactly when it comes from a supported UPI
      app other than this one, its text yields a positive amount, and the save succeeds; the
      row then carries that amount, the package, the sender, the clock and the raw message. */
  lemma RecordedIff(ownPackage: string, n: Posted, now: int, saveFails: bool, s: Store)
    requires Valid(s)
    ensures var r := OnNotificationPosted(ownPackage, Some(n), now, saveFails, s);
      r.announcement.Some? <==>
        && n.packageName != ownPackage
        && IsSupportedPackage(n.packageName)
        && ParseAmount(n.title, BodyText(n)).Some?
        && ParseAmount(n.title, BodyText(n)).value > 0
        && !saveFails
    ensures var r := OnNotificationPosted(ownPackage, Some(n), now, saveFails, s);
      r.announcement.Some? ==>
        && r.announcement.value == Announcement(ParseAmount(n.title, BodyText(n)).value, SenderName(n.title))
        && r.store.rows == s.rows + [r.store.rows[|s.rows|]]
        && r.store.rows[|s.rows|] == TransactionFor(n, r.announcement.value.amount, now).(id := r.store.rows[|s.rows|].id)
  {
    var r := OnNotificationPosted(ownPackage, Some(n), now, saveFails, s);
    if r.announcement.Some? {
      assert r.store.rows == r.store.rows[..|s.rows|] + [r.store.rows[|s.rows|]];
    }
  }

  /** A transfer of zero is neither stored nor announced. */
  lemma ZeroAmountDropped(ownPackage: string, n: Posted, now: int, saveFails: bool, s: Store)
    requires Valid(s) && ParseAmount(n.title, BodyText(n)) == Some(0)
    ensures OnNotificationPosted(ownPackage, Some(n), now, saveFails, s) == Outcome(s, None)
  {
  }

  /** A notification whose text says the payment failed, or is a request, refund, cashback
      or one-time password, never reaches the database. */
  lemma RejectedNotRecorded(ownPackage: string, n: Posted, now: int, saveFails: bool, s: Store, k: nat)
    requires Valid(s) && k < |RejectionWords|
    requires Contains(FullText(n.title, BodyText(n)), RejectionWords[k])
    ensures OnNotificationPosted(ownPackage, Some(n), now, saveFails, s) == Outcome(s, None)
  {
    RejectionWins(n.title, BodyText(n), k);
  }

  /** `bigText` is only a fallback: when `text` is present, `bigText` has no influence. */
  lemma BigTextOnlyFallback(ownPackage: string, n: Posted, big: Option<string>, now: int, saveFails: bool, s: Store)
    requires Valid(s) && n.text.Some?
    ensures OnNotificationPosted(ownPackage, Some(n), now, saveFails, s) ==
            OnNotificationPosted(ownPackage, Some(n.(bigText := big)), now, saveFails, s)
  {
  }

  /** "<name> paid you ...": the sender is the trimmed text before the first " paid you". */
  lemma SenderPaidYou(name: string, rest: string)
    requires forall j :: 0 <= j < |name| ==> !OccursAt(name + " paid you" + rest, " paid you", j)
    ensures SenderName(Some(name + " paid you" + rest)) == Trim(name)
  {
    var t := name + " paid you" + rest;
    OccursInConcat(name, " paid you", rest);
    SubstringBeforeFirst(t, " paid you", |name|);
    assert t[..|name|] == name;
    PaidYouGuard(name, rest);
  }

  lemma PaidYouGuard(name: string, rest: string)
    ensures ContainsIgnoreCase(name + " paid you" + rest, "paid you")
  {
    PhraseIsLower(" ", "paid you");
    PhraseLowered(name, " ", "paid you", rest);
    OccursInConcat(Lower(name) + " ", "paid you", Lower(rest));
    ContainsAt(Lower(name + " paid you" + rest), "paid you", |name| + 1);
  }

  /** "... received from <name>" without "paid you": the sender is the trimmed text after the
      first "received from". */
  lemma SenderReceivedFrom(prefix: string, name: string)
    requires !ContainsIgnoreCase(prefix + "received from" + name, "paid you")
    requires forall j :: 0 <= j < |prefix| ==> !OccursAt(prefix + "received from" + name, "received from", j)
    ensures SenderName(Some(prefix + "received from" + name)) == Trim(name)
  {
    var t := prefix + "received from" + name;
    OccursInConcat(prefix, "received from", name);
    SubstringAfterFirst(t, "received from", |prefix|);
    assert t[|prefix| + 13..] == name;
    ReceivedFromGuard(prefix, name);
  }

  lemma ReceivedFromGuard(prefix: string, name: string)
    ensures ContainsIgnoreCase(prefix + "received from" + name, "received from")
  {
    PhraseIsLower("", "received from");
    PhraseLowered(prefix, "", "received from", name);
    OccursInConcat(Lower(prefix) + "", "received from", Lower(name));
    ContainsAt(Lower(prefix + "received from" + name), "received from", |prefix|);
  }

  lemma PhraseIsLower(space: string, phrase: string)
    requires space == " " || space == ""
    requires phrase == "paid you" || phrase == "received from"
    ensures Lower(space + phrase) == space + phrase
  {
    LowerUnchanged(space + phrase);
  }

  /** Lowering a text around a lower-case phrase lowers only the surrounding parts. */
  lemma PhraseLowered(before: string, space: string, phrase: string, after: string)
    requires Lower(space + phrase) == space + phrase
    ensures Lower(before + (space + phrase) + after) == Lower(before) + space + phrase + Lower(after)
  {
    LowerAppend(before, space + phrase);
    LowerAppend(before + (space + phrase), after);
  }

  /** The guard ignores case but the extraction does not: "Received From Ravi" passes the
      guard, finds no lower-case "received from", and the whole title becomes the sender. */
  lemma SenderCaseMismatch()
    ensures SenderName(Some("Received From Ravi")) == "Received From Ravi"
  {
    var t := "Received From Ravi";
    RaviLower();
    RaviAbsent();
    RaviTrim();
    assert ContainsIgnoreCase(t, "received from") by {
      ContainsAt(Lower(t), "received from", 0);
    }
    assert !ContainsIgnoreCase(t, "paid you");
    assert SubstringAfter(t, "received from") == t;
  }

  lemma RaviLower()
    ensures Lower("Received From Ravi") == "received from ravi"
    ensures OccursAt("received from ravi", "received from", 0)
  {
  }

  lemma RaviAbsent()
    ensures !Contains("Received From Ravi", "received from")
    ensures !Contains("received from ravi", "paid you")
  {
    assert "Received From Ravi"[..6] == "Receiv";
    AbsentByFirstChar("Received From Ravi", "received from");
    assert "received from ravi"[..11] == "received fr";
    AbsentByFirstChar("received from ravi", "paid you");
  }

  lemma RaviTrim()
    ensures Trim("Received From Ravi") == "Received From Ravi"
  {
    TrimUnique("Received From Ravi", 0, 18);
  }
}
