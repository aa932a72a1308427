# UPI Alert: a Dafny model of the payment soundbox core

UPI Alert is an Android app that works like a shop "soundbox". It listens to the
notifications of UPI payment apps (Google Pay, PhonePe, Paytm, BHIM). When one says money
was received, the app stores a transaction row and speaks the amount aloud on the alarm
stream. This project models the core of that pipeline as pure Dafny functions over
immutable state and proves properties of it.

- **`UpiParser`** (`upi_parser.dfy`)
  - The package allow-list.
  - `parseAmount`: lower-casing, the rejection and credit keyword filters, the amount
    regular expression, comma stripping and `toDoubleOrNull`.
  - The regular expression becomes a greedy scanner. A declarative `ReadsAt` states the
    pattern, and soundness and completeness lemmas connect the two.
  - Amounts are whole paise.
- **`NotificationService`** (`notification_service.dfy`)
  - `onNotificationPosted`: the own-package and allow-list gates, the text/bigText
    fallback, the positive-amount gate, sender extraction from the title, the row written
    and the announcement requested after a successful save.
- **`TransactionDao`** (`transaction_dao.dfy`)
  - `TransactionEntity`, plus an in-memory reference model of the Room DAO.
  - Insert with an AUTOINCREMENT key and the ABORT conflict strategy, delete, delete-all.
  - The recent-50 list, the range list ordered by timestamp, the range count and the
    range `SUM`, which is NULL over no rows.
- **`TtsManager`** (`tts_manager.dfy`)
  - The queue that holds texts until the engine has initialised, and the single
    completion listener.
  - The engine is represented by the trace of calls made on it.
- **`Announcements`** (`announcements.dfy`)
  - The quiet-hours window.
  - The amount formatting, including `toInt()` saturation and `Double.toString`'s
    scientific form.
  - The ten language templates, with their locales and base rates.
- **`SoundboxService`** (`soundbox_service.dfy`)
  - `onStartCommand`, `finishWork`, `onCreate` and `onDestroy` over a state holding the
    alarm volume, the saved volume, the wake lock, the foreground flag and the TTS manager.
- **`TransactionsAdapter`** (`transactions_adapter.dfy`)
  - The title shown for a row: the sender, else the app label.
  - The two `DiffUtil` predicates.
- **`QrUtils`** (`qr_utils.dfy`)
  - `getUpiString`, with `Uri.encode` modelled through UTF-8 and percent-escapes.
  - A reference decoder and the URI's parameter list.
  - `generateQrCode`'s conversion of the encoder's bit matrix into pixels.
- **Supporting modules:** `Text` (the Kotlin string functions used: `lowercase`,
  `contains`, `indexOf`, `substringBefore/After`, `trim`), `Decimal` (digit strings) and
  `Wrappers` (`Option`, `Result`).

Parameters stand in for everything outside the core:
- the clock;
- whether the database insert throws;
- whether restoring the volume throws;
- the QR encoder's output;
- the app's own package name;
- the preferences.

## Behaviour of note

The model follows the code as written, including these points:

- **Sender order.** `senderName` tests "paid you" before "received from".
- **Sender source.** The sender is taken from the title only.
- **Case sensitivity.** Both tests ignore case, but `substringBefore(" paid you")` and
  `substringAfter("received from")` do not. So "Received From Ravi" yields the whole title
  as the sender (`NotificationService.SenderCaseMismatch`).
- **No trimming in the fallback.** A title with neither phrase becomes the sender untrimmed.
- **BHIM label.** The BHIM package, `in.org.npci.upiapp`, does not contain "bhim". Without a
  sender, the transaction list therefore labels it "UPI App", not "BHIM"
  (`TransactionsAdapter.SupportedAppLabels`).
- **Failed restore keeps the lock.** `finishWork` restores the volume and releases the wake
  lock in one `try`. When restoring throws, the lock stays held.
- **Saved volume never reset within an instance.** The saved volume is never cleared. A
  plain message that arrives while an announcement is still being spoken is finished by
  putting back the level saved before that announcement, undoing a change the user made in
  between (`SoundboxService.StaleVolumeRestored`). `finishWork` ends with `stopSelf`, so a
  message after the announcement has finished reaches a new instance with no saved volume
  and restores nothing (`SoundboxService.NoStaleRestoreAfterStop`).
- **Initialisation comes after the request.** Every payment reaches a new instance, whose
  engine initialises only after `onStartCommand` has run. The sentence waits in the queue
  and is spoken once initialisation succeeds (`SoundboxService.FreshServiceAnnouncement`).
  Initialisation sets Indian English after the configured locale was set, so the sentence
  of the configured language is read with the `en-IN` voice
  (`SoundboxService.InitLocaleOverridesLanguage`).
- **Failed initialisation.** When the engine fails to initialise, the sentence is never
  spoken and never completes. The alarm volume stays at its maximum, the wake lock stays
  held and the service keeps running (`SoundboxService.FailedInitLeavesVolumeRaised`).

## Model

| member | source | states |
|---|---|---|
| UpiParser.IsSupportedPackage | app/src/main/java/com/upialert/core/UpiParser.kt:9-19 | a package is supported exactly when it is one of the four UPI app packages |
| UpiParser.MarkerEnd | app/src/main/java/com/upialert/core/UpiParser.kt:56 | a found currency marker is a non-empty slice of the text that is one of the alternation's markers |
| UpiParser.MarkerEndGreedy | app/src/main/java/com/upialert/core/UpiParser.kt:56 | when a marker is followed by a character that can continue the pattern, the longest-first choice finds exactly that marker, so committing to the longest marker loses no match |
| UpiParser.MatchAt | app/src/main/java/com/upialert/core/UpiParser.kt:56-59 | an attempt at a position captures a non-empty digit-and-comma run followed by an optional fraction of one or two digits, all after the marker |
| UpiParser.MatchAtSound | app/src/main/java/com/upialert/core/UpiParser.kt:56-63 | every capture of the scanner is a reading of the pattern (marker, spaces, optional ':' or '-', spaces, group) whose group cannot be extended |
| UpiParser.MatchAtComplete | app/src/main/java/com/upialert/core/UpiParser.kt:56-59 | every reading of the pattern at a position is found there, starting at the same place and never shorter |
| UpiParser.Find | app/src/main/java/com/upialert/core/UpiParser.kt:57-59 | `find()` returns the leftmost position at which the pattern matches, and none when no position matches |
| UpiParser.NoEarlierReading | app/src/main/java/com/upialert/core/UpiParser.kt:59 | no reading of the pattern starts before the position `find()` reports |
| UpiParser.StripCommas | app/src/main/java/com/upialert/core/UpiParser.kt:62 | the result has no comma and is no longer than the input |
| UpiParser.StripCommasCounts | app/src/main/java/com/upialert/core/UpiParser.kt:62 | every character other than a comma is kept exactly as often as it occurs, and commas are dropped |
| UpiParser.StripCommasAppend | app/src/main/java/com/upialert/core/UpiParser.kt:62 | removing commas distributes over concatenation |
| UpiParser.GroupIsPlainDecimal | app/src/main/java/com/upialert/core/UpiParser.kt:62-63 | a captured group without its commas is digits followed by an optional one- or two-digit fraction, which is what `toDoubleOrNull` then reads |
| UpiParser.PointIndexSplit | app/src/main/java/com/upialert/core/UpiParser.kt:63 | in digits followed by a fraction, the decimal point sits right after the digits |
| UpiParser.ToPaise | app/src/main/java/com/upialert/core/UpiParser.kt:63 | `toDoubleOrNull` on such a string is null exactly for the empty string (".5" is a number) |
| UpiParser.ParseAmountIgnoresCase | app/src/main/java/com/upialert/core/UpiParser.kt:27-28 | two title/content pairs that agree up to letter case, with null read as "", give the same result |
| UpiParser.RejectionWins | app/src/main/java/com/upialert/core/UpiParser.kt:31-39 | any rejection word ("failed", "request", "declined", "refund", "cashback", "otp") makes the result null, whatever else the text holds |
| UpiParser.CreditWordRequired | app/src/main/java/com/upialert/core/UpiParser.kt:44-51 | without "received", "credited", "sent you" or "paid you" the result is null |
| UpiParser.ClassifySound | app/src/main/java/com/upialert/core/UpiParser.kt:27-69 | a result means no rejection word, some credit word, and the value of the leftmost greedy reading of the amount pattern |
| UpiParser.ParseAmountSound | app/src/main/java/com/upialert/core/UpiParser.kt:27-69 | the same for `parseAmount(title, content)` on the combined lower-cased text |
| UpiParser.ParseAmountComplete | app/src/main/java/com/upialert/core/UpiParser.kt:56-69 | once the filters pass, any reading of the pattern means a match is found no later than it, and the result is null only if that group holds nothing but commas |
| Decimal.NatToString | app/src/main/java/com/upialert/core/SoundboxService.kt:133-134 | the printed integer is non-empty digits without a leading zero, one digit exactly below ten |
| Decimal.NatToStringRoundTrip | app/src/main/java/com/upialert/core/SoundboxService.kt:133-134 | reading back a printed integer gives the integer |
| Decimal.NatToStringInjective | app/src/main/java/com/upialert/core/SoundboxService.kt:133-134 | distinct integers never print alike |
| Text.Lower | app/src/main/java/com/upialert/core/UpiParser.kt:28 | lower-casing keeps the length and maps each character on its own, A-Z to a-z |
| Text.LowerAppend | app/src/main/java/com/upialert/core/UpiParser.kt:28 | lower-casing distributes over concatenation |
| Text.IndexFrom | app/src/main/java/com/upialert/core/UpiParser.kt:31-47 | `indexOf` returns the leftmost occurrence at or after the start, and none only when there is no occurrence |
| Text.ContainsIff | app/src/main/java/com/upialert/core/UpiParser.kt:31-47 | `contains` holds exactly when the word occurs somewhere |
| Text.SubstringBefore | app/src/main/java/com/upialert/core/NotificationService.kt:75 | the text before the first occurrence of the delimiter, or the whole text without one |
| Text.SubstringAfter | app/src/main/java/com/upialert/core/NotificationService.kt:77 | the text after the first occurrence of the delimiter, or the whole text without one |
| Text.TrimRange | app/src/main/java/com/upialert/core/NotificationService.kt:75-77 | `trim` keeps a slice with only whitespace around it and non-whitespace at its ends |
| Text.TrimUnique | app/src/main/java/com/upialert/core/NotificationService.kt:75-77 | any slice with only whitespace around it and non-whitespace ends is the trimmed string |
| Text.TrimIdempotent | app/src/main/java/com/upialert/utils/QrUtils.kt:43-44 | trimming twice is trimming once |
| NotificationService.SenderName | app/src/main/java/com/upialert/core/NotificationService.kt:74-80 | the sender for each case: no title gives "Unknown"; a "paid you" title gives the trimmed text before " paid you"; otherwise a "received from" title gives the trimmed text after it; otherwise the title itself |
| NotificationService.SenderPaidYou | app/src/main/java/com/upialert/core/NotificationService.kt:74-75 | "<name> paid you …" gives the trimmed name |
| NotificationService.SenderReceivedFrom | app/src/main/java/com/upialert/core/NotificationService.kt:76-77 | "… received from <name>", without "paid you", gives the trimmed name |
| NotificationService.SenderCaseMismatch | app/src/main/java/com/upialert/core/NotificationService.kt:76-77 | "Received From Ravi" passes the case-insensitive test but is not split, and the whole title becomes the sender |
| NotificationService.OnNotificationPosted | app/src/main/java/com/upialert/core/NotificationService.kt:23-103 | the table stays valid; without an announcement it is unchanged; an announcement comes only after the row was inserted |
| NotificationService.OwnNotificationIgnored | app/src/main/java/com/upialert/core/NotificationService.kt:29-31 | the app's own notifications change nothing |
| NotificationService.RecordedIff | app/src/main/java/com/upialert/core/NotificationService.kt:62-99 | a row is saved and announced exactly when the package is supported and not the app's own, the amount is positive and the save succeeds; the row appended is that notification's row, and the announcement carries its amount and sender |
| NotificationService.ZeroAmountDropped | app/src/main/java/com/upialert/core/NotificationService.kt:70 | a zero amount is neither stored nor announced |
| NotificationService.RejectedNotRecorded | app/src/main/java/com/upialert/core/NotificationService.kt:68-70 | a notification with a rejection word never reaches the database |
| NotificationService.BigTextOnlyFallback | app/src/main/java/com/upialert/core/NotificationService.kt:60 | when `android.text` is present, `android.bigText` has no influence |
| TransactionDao.Insert | app/src/main/java/com/upialert/data/TransactionDao.kt:10-11 | a key of 0 gets a fresh key; an explicit key already taken fails, and only that fails; on success exactly one row, equal to the entity up to its key, is appended and keys stay unique |
| TransactionDao.DistinctIdsAppend | app/src/main/java/com/upialert/data/TransactionEntity.kt:8 | appending a row with an unused key keeps the primary keys unique |
| TransactionDao.WithoutId | app/src/main/java/com/upialert/data/TransactionDao.kt:13-14 | removing a key leaves every other row and only rows of the input, with unique keys kept |
| TransactionDao.Delete | app/src/main/java/com/upialert/data/TransactionDao.kt:13-14 | after a delete no row has the entity's key, every other row remains, and the key counter is kept |
| TransactionDao.DeleteAll | app/src/main/java/com/upialert/data/TransactionDao.kt:28-29 | the table is empty and the AUTOINCREMENT counter is kept |
| TransactionDao.InsertThenDelete | app/src/main/java/com/upialert/data/TransactionDao.kt:10-14 | deleting the row just inserted restores the table |
| TransactionDao.InsertSorted | app/src/main/java/com/upialert/data/TransactionDao.kt:22-23 | inserting into a sorted list keeps it sorted and holds exactly the old elements and the new one |
| TransactionDao.InsertSortedPermutes | app/src/main/java/com/upialert/data/TransactionDao.kt:22-23 | that insertion adds one occurrence of the element and its amount to the total |
| TransactionDao.SortByTimestamp | app/src/main/java/com/upialert/data/TransactionDao.kt:16-23 | `ORDER BY timestamp` gives a sorted list of the same length |
| TransactionDao.SortPermutes | app/src/main/java/com/upialert/data/TransactionDao.kt:16-23 | ordering is a permutation and keeps the total |
| TransactionDao.Filter | app/src/main/java/com/upialert/data/TransactionDao.kt:22-23 | the `WHERE` clause keeps exactly the rows with start <= timestamp < end |
| TransactionDao.FilterCounts | app/src/main/java/com/upialert/data/TransactionDao.kt:22-23 | rows in range keep their multiplicity and all others are dropped |
| TransactionDao.GetTransactionsInRange | app/src/main/java/com/upialert/data/TransactionDao.kt:22-23 | the rows with start <= timestamp < end, each as often as in the table, oldest first |
| TransactionDao.GetCountInRange | app/src/main/java/com/upialert/data/TransactionDao.kt:25-26 | the count is the length of the range list |
| TransactionDao.GetTotalAmountInRange | app/src/main/java/com/upialert/data/TransactionDao.kt:19-20 | `SUM` is null exactly over an empty range, and otherwise the total of the range list |
| TransactionDao.GetRecentTransactions | app/src/main/java/com/upialert/data/TransactionDao.kt:16-17 | at most 50 rows (fewer only when the table is smaller), newest first |
| TransactionDao.RecentAreNewest | app/src/main/java/com/upialert/data/TransactionDao.kt:16-17 | the recent list is drawn from the table, and no row it leaves out is newer than any row it shows |
| TransactionDao.DeleteAllEmpties | app/src/main/java/com/upialert/data/TransactionDao.kt:16-29 | after `deleteAll` every list is empty, the count is 0 and the total is null |
| TransactionDao.EmptyRange | app/src/main/java/com/upialert/data/TransactionDao.kt:19-23 | an empty or inverted range lists nothing and totals null |
| TransactionDao.InsertShowsInRange | app/src/main/java/com/upialert/data/TransactionDao.kt:10-23 | an insert adds the new row to exactly the ranges containing its timestamp |
| TransactionDao.DeletedRowNotListed | app/src/main/java/com/upialert/data/TransactionDao.kt:13-23 | a deleted key never appears in a range list |
| TtsManager.Create | app/src/main/java/com/upialert/core/TtsManager.kt:16-18 | a new manager is not initialised, has nothing requested and no listener |
| TtsManager.Speak | app/src/main/java/com/upialert/core/TtsManager.kt:49-58 | the listener is replaced; the text goes to the engine when initialised and to the end of the queue otherwise; it is added to the texts requested |
| TtsManager.ProcessQueue | app/src/main/java/com/upialert/core/TtsManager.kt:84-89 | draining empties the queue into the engine in order, keeping the listener and the texts requested |
| TtsManager.OnInit | app/src/main/java/com/upialert/core/TtsManager.kt:16-47 | success initialises the engine and empties the queue without losing or reordering texts; failure changes nothing |
| TtsManager.OnUtteranceFinished | app/src/main/java/com/upialert/core/TtsManager.kt:33-39 | completion invokes the stored listener, and only once a progress listener is installed |
| TtsManager.Call | app/src/main/java/com/upialert/core/TtsManager.kt:60-82 | `stop`, `shutdown`, `setLanguage`, `setRate` and `setPitch` append one engine call and change nothing else |
| TtsManager.SpeakAllRequests | app/src/main/java/com/upialert/core/TtsManager.kt:49-58 | a series of texts is requested in order, whether or not the engine is ready |
| TtsManager.QueuedTextsSpokenOnInit | app/src/main/java/com/upialert/core/TtsManager.kt:42-58 | texts spoken before initialisation reach the engine, in order, when it succeeds |
| TtsManager.FailedInitKeepsQueueing | app/src/main/java/com/upialert/core/TtsManager.kt:42-58 | after a failed initialisation nothing reaches the engine and every text queues |
| TtsManager.LastListenerWins | app/src/main/java/com/upialert/core/TtsManager.kt:33-39 | completion invokes the listener passed to the most recent `speak` |
| Announcements.InMuteWindowIsCircularInterval | app/src/main/java/com/upialert/core/SoundboxService.kt:105-122 | the overnight and same-day cases together are the circular interval of fewer than (end - start) mod 1440 minutes from the start |
| Announcements.DefaultScheduleIsOvernight | app/src/main/java/com/upialert/core/SoundboxService.kt:95-129 | with the default 22:00–06:00 schedule on, exactly 22:00 to 05:59 is muted |
| Announcements.EmptyWindowNeverMutes | app/src/main/java/com/upialert/core/SoundboxService.kt:116-122 | equal start and end never mute |
| Announcements.FractionText | app/src/main/java/com/upialert/core/SoundboxService.kt:136 | the fraction prints as one or two digits after the point and reads back as the same paise |
| Announcements.Scientific | app/src/main/java/com/upialert/core/SoundboxService.kt:136 | from ten million rupees up, `Double.toString` prints a point and an exponent |
| Announcements.FormatAmount | app/src/main/java/com/upialert/core/SoundboxService.kt:133-137 | the printed amount is non-empty and has a point exactly when the amount is not whole |
| Announcements.FormatAmountRoundTrip | app/src/main/java/com/upialert/core/SoundboxService.kt:133-137 | below ten million rupees, the printed amount reads back through the parser's number conversion as the same paise |
| Announcements.FormatAmountInjective | app/src/main/java/com/upialert/core/SoundboxService.kt:133-137 | below ten million rupees, distinct amounts print differently |
| Announcements.LanguageOf | app/src/main/java/com/upialert/core/SoundboxService.kt:139-182 | any setting other than the nine named languages falls to English |
| Announcements.UnnamedSenderIgnored | app/src/main/java/com/upialert/core/SoundboxService.kt:139-182 | "" and "Unknown" produce the same sentence |
| Announcements.ComposeMentions | app/src/main/java/com/upialert/core/SoundboxService.kt:139-182 | the sentence contains the printed amount, and the sender exactly when the sender is named |
| Announcements.ComposeAmountInjective | app/src/main/java/com/upialert/core/SoundboxService.kt:139-182 | the same template and sender never give one sentence for two amount strings |
| Announcements.ComposeSenderInjective | app/src/main/java/com/upialert/core/SoundboxService.kt:139-182 | the same template and amount never give one sentence for two named senders |
| Announcements.AnnouncementDistinguishesAmounts | app/src/main/java/com/upialert/core/SoundboxService.kt:133-182 | below ten million rupees, equal sentences in one language to one sender mean equal amounts |
| SoundboxService.Create | app/src/main/java/com/upialert/core/SoundboxService.kt:66-78 | the service starts in the foreground with the wake lock held, no saved volume and nothing requested |
| SoundboxService.FinishWork | app/src/main/java/com/upialert/core/SoundboxService.kt:218-231 | the service always leaves the foreground and stops; a saved volume is restored and the lock released, unless restoring throws, in which case both stay as they were |
| SoundboxService.SetVoice | app/src/main/java/com/upialert/core/SoundboxService.kt:186-189 | the configured locale and then the language's rate scaled by the user's speed reach the engine; the queue, the listener and the texts requested are unchanged |
| SoundboxService.Announce | app/src/main/java/com/upialert/core/SoundboxService.kt:85-199 | with the voice off or in quiet hours the work is only finished; otherwise the configured locale and rate reach the engine, the sentence is requested once with `finishWork` as listener, the old volume is saved and the volume raised to its maximum, and the lock and running state are kept |
| SoundboxService.OnStartCommand | app/src/main/java/com/upialert/core/SoundboxService.kt:80-216 | a request to a running instance keeps the state valid, never clears a saved volume and never acquires the wake lock |
| SoundboxService.Deliver | app/src/main/java/com/upialert/core/SoundboxService.kt:62-78 | a request after `stopSelf` reaches a new instance, which has no saved volume from the old one and at most one text requested |
| SoundboxService.OnTtsInit | app/src/main/java/com/upialert/core/SoundboxService.kt:69 | the engine's initialisation touches only the TTS manager and loses no text |
| SoundboxService.OnUtteranceDone | app/src/main/java/com/upialert/core/SoundboxService.kt:196-205 | once the engine is initialised and a listener is stored, a completion is exactly `finishWork` with the same restore outcome; otherwise it changes nothing; it never acquires the lock |
| SoundboxService.OnDestroy | app/src/main/java/com/upialert/core/SoundboxService.kt:235-241 | destroying appends exactly one `shutdown` call to the engine and releases the lock, changing nothing else |
| SoundboxService.NonSpeakRequestFinishes | app/src/main/java/com/upialert/core/SoundboxService.kt:210-213 | a request without the speak action (as `start` sends) only finishes the work |
| SoundboxService.SilencedAmountNotSpoken | app/src/main/java/com/upialert/core/SoundboxService.kt:88-129 | with the voice off or in quiet hours, nothing is spoken and no volume is saved |
| SoundboxService.AmountSpoken | app/src/main/java/com/upialert/core/SoundboxService.kt:131-199 | an accepted amount is requested once in the configured language's sentence (the voice's locale is a separate matter, see `SoundboxService.InitLocaleOverridesLanguage`), at maximum volume with the old volume saved and `finishWork` as listener |
| SoundboxService.MessageSpokenVerbatim | app/src/main/java/com/upialert/core/SoundboxService.kt:200-205 | without a positive amount, a message is spoken verbatim and the volume is left alone |
| SoundboxService.EmptySpeakRequestFinishes | app/src/main/java/com/upialert/core/SoundboxService.kt:200-208 | a speak request with no positive amount and no message only finishes the work |
| SoundboxService.WakeLockNeverReacquired | app/src/main/java/com/upialert/core/SoundboxService.kt:72-75 | within one running instance, a released wake lock is not taken again by a request or a completion |
| SoundboxService.OneAnnouncementRestoresVolume | app/src/main/java/com/upialert/core/SoundboxService.kt:80-231 | one announcement on an instance whose engine has already initialised raises the volume, speaks once, then restores the volume, releases the lock and stops |
| SoundboxService.FreshServiceAnnouncement | app/src/main/java/com/upialert/core/SoundboxService.kt:66-231 | on a new instance, with the request before the engine's initialisation, nothing is spoken until initialisation succeeds; then the sentence is spoken once, and its completion restores the volume, releases the lock and stops |
| SoundboxService.InitLocaleOverridesLanguage | app/src/main/java/com/upialert/core/TtsManager.kt:16-47 | in that order the engine receives the configured locale and rate, then the alarm stream, the `en-IN` locale and the progress listener, and then the sentence |
| SoundboxService.FailedInitLeavesVolumeRaised | app/src/main/java/com/upialert/core/TtsManager.kt:43-45 | after a failed initialisation nothing is spoken, the volume stays at its maximum, the lock stays held, the service keeps running and no completion arrives |
| SoundboxService.NoStaleRestoreAfterStop | app/src/main/java/com/upialert/core/SoundboxService.kt:218-231 | a plain message after `stopSelf` starts with no saved volume and, when it completes, leaves the volume the user set |
| SoundboxService.RestoreFailureKeepsLock | app/src/main/java/com/upialert/core/SoundboxService.kt:218-228 | when restoring the volume throws, the volume stays raised and the lock stays held |
| SoundboxService.StaleVolumeRestored | app/src/main/java/com/upialert/core/SoundboxService.kt:192-222 | a plain message that arrives while an announcement is being spoken is finished by restoring the volume saved before that announcement, even after the user changed it |
| TransactionsAdapter.DisplayName | app/src/main/java/com/upialert/ui/TransactionsAdapter.kt:30-40 | a named sender is shown as is; otherwise one of the app labels |
| TransactionsAdapter.AppLabel | app/src/main/java/com/upialert/ui/TransactionsAdapter.kt:33-39 | each of "Google Pay", "PhonePe", "Paytm" and "BHIM" holds exactly when its word is in the package, ignoring case, and no earlier word is; "UPI App" exactly when none of the four is |
| TransactionsAdapter.SupportedAppLabels | app/src/main/java/com/upialert/ui/TransactionsAdapter.kt:33-39 | the four supported packages are labelled Google Pay, PhonePe, Paytm and, for BHIM, "UPI App" |
| TransactionsAdapter.ContentsRefineItems | app/src/main/java/com/upialert/ui/TransactionsAdapter.kt:54-62 | equal contents imply the same item, and the same item with equal other fields has equal contents |
| TransactionsAdapter.ItemsIdentifyRows | app/src/main/java/com/upialert/ui/TransactionsAdapter.kt:55-57 | two different rows of a valid table are never the same item |
| QrUtils.Utf8 | app/src/main/java/com/upialert/utils/QrUtils.kt:44 | a character encodes to one to four bytes, and to one byte exactly when it is ASCII |
| QrUtils.Utf8RoundTrip | app/src/main/java/com/upialert/utils/QrUtils.kt:44 | UTF-8 decoding inverts UTF-8 encoding |
| QrUtils.HexDigit | app/src/main/java/com/upialert/utils/QrUtils.kt:44 | an escape's hex digit is unreserved and reads back as its value |
| QrUtils.UriDecodeEncode | app/src/main/java/com/upialert/utils/QrUtils.kt:44 | decoding the encoded name gives back the name, whatever characters it holds |
| QrUtils.EncodedIsSafe | app/src/main/java/com/upialert/utils/QrUtils.kt:44 | the encoded name consists only of unreserved characters and '%' |
| QrUtils.EncodeIdentityIff | app/src/main/java/com/upialert/utils/QrUtils.kt:44 | encoding leaves a string unchanged exactly when all its characters are unreserved |
| QrUtils.UpiString | app/src/main/java/com/upialert/utils/QrUtils.kt:41-51 | the URI is never shorter than the 24-character fixed template `upi://pay?pa=&pn=&cu=INR` |
| QrUtils.UpiStringTemplate | app/src/main/java/com/upialert/utils/QrUtils.kt:43-49 | the URI is "upi://pay?pa=" + trimmed VPA + "&pn=" + encoded trimmed name + "&cu=INR", plus "&am=" + amount when the amount is present and non-empty |
| QrUtils.SplitJoin | app/src/main/java/com/upialert/utils/QrUtils.kt:46-48 | splitting the query at '&' gives back the parts joined, when no part contains '&' |
| QrUtils.UpiStringParams | app/src/main/java/com/upialert/utils/QrUtils.kt:41-51 | the URI's parameters are exactly pa, pn, cu and (when given) am, in that order, with their values |
| QrUtils.PayeeNameRecovered | app/src/main/java/com/upialert/utils/QrUtils.kt:43-46 | a scanner decoding the pn parameter gets back the trimmed payee name |
| QrUtils.NoAmountEndsWithCurrency | app/src/main/java/com/upialert/utils/QrUtils.kt:46-49 | an absent or empty amount adds nothing, and the URI ends with "&cu=INR" |
| QrUtils.Pixels | app/src/main/java/com/upialert/utils/QrUtils.kt:22-30 | one pixel per module, row after row, black for a set module and white otherwise |
| QrUtils.GenerateQrCode | app/src/main/java/com/upialert/utils/QrUtils.kt:12-39 | null exactly for empty content or a failing encoder; otherwise a bitmap of the matrix's size whose pixel at (x, y) is the module's colour |

## Left out

- Android plumbing is not modelled: intents as IPC, notification channels, `onBind`,
  `onListenerConnected` and logging.
- The service lifecycle is modelled only as far as `stopSelf` ends an instance and a later
  request starts a new one from `onCreate` (`SoundboxService.Deliver`). When the platform
  calls `onDestroy` relative to other callbacks is not modelled.
- The debug dump of every notification extra to the `upi_debug` preferences is not
  modelled. It has no effect on the core's decisions.
- Concurrency is not modelled. The coroutine that saves and announces runs to completion
  before the next notification, and interleavings of service requests are not explored.
- Amounts are whole paise, not `Double`, so floating-point rounding is not modelled.
  - A two-digit fraction is exact in paise.
  - Integer parts beyond 2^53 would round in the source.
  - `amount % 1 == 0.0` is modelled as "no paise".
- Announcements.FormatAmount: below ten million rupees it is exact. Above that, its form
  is `Double.toString`'s shortest scientific notation, but the digits are not checked
  against Java's algorithm.
- The TTS rate `rate * userSpeed` is a `real`, not a `Float`, and the pitch is recorded
  but never used.
- The text-to-speech engine is represented by the trace of calls made on it. Whether a
  language is available (a log line only), audio focus and the engine's own timing are
  left out.
- The wake lock's ten-minute timeout is not modelled: the lock is held until released.
- The alarm stream is a single integer volume and maximum.
- Case mapping covers ASCII letters only. Kotlin's `lowercase(Locale.ROOT)` also maps
  other Unicode letters.
- Java's `(?i)` flag is taken as ASCII-only case folding, applied to already lower-cased
  text.
- TransactionsAdapter: amount formatting (`%.2f`), date formatting, view binding and the
  delete button are not modelled.
- `TransactionRepository`, `MainActivity`, `ReportsActivity`, `SettingsActivity`, the QR
  display fragment and the other UI are not part of this model.
- The QR encoder is a parameter: its bit matrix, or None when it throws. `createBitmap`
  and `setPixels` are represented by the pixel array.
- Strings are sequences of Unicode scalar values. Unpaired UTF-16 surrogates, which
  `Uri.encode` would replace, cannot occur.
- QrUtils.UpiStringParams: the VPA and the amount are inserted without encoding, so the
  property requires that neither contains '&'.
- The database is in memory. Room's `Flow` re-emission and SQL's unspecified order among
  equal timestamps are not modelled; the model uses a stable order, which is one of the
  orders allowed.
