/** `TransactionsAdapter`: the label shown for a stored transaction and the two identity
    predicates the list differ uses. Amount and date formatting are not modelled. */
module TransactionsAdapter {
  import opened Text
  import opened UpiParser
  import opened TransactionDao
  import opened Announcements

  /** The row's title: the sender when one is known, otherwise the app recognised from the
      package name (first case-insensitive match wins), otherwise "UPI App". */
  function DisplayName(item: TransactionEntity): (r: string)
    ensures |r| > 0
    ensures IncludesSender(item.senderName) ==> r == item.senderName
    ensures !IncludesSender(item.senderName) ==> r in {"Google Pay", "PhonePe", "Paytm", "BHIM", "UPI App"}
  {
    if IncludesSender(item.senderName) then item.senderName
    else AppLabel(item.appPackage)
  }

  /** The app recognised from the package name: the first of "google", "phonepe", "paytm" and
      "bhim" it contains, ignoring case, otherwise "UPI App". */
  function AppLabel(appPackage: string): (r: string)
    ensures r == "Google Pay" <==> ContainsIgnoreCase(appPackage, "google")
    ensures r == "PhonePe" <==> !ContainsIgnoreCase(appPackage, "google") && ContainsIgnoreCase(appPackage, "phonepe")
    ensures r == "Paytm" <==>
      !ContainsIgnoreCase(appPackage, "google") && !ContainsIgnoreCase(appPackage, "phonepe") && ContainsIgnoreCase(appPackage, "paytm")
    ensures r == "BHIM" <==>
      !ContainsIgnoreCase(appPackage, "google") && !ContainsIgnoreCase(appPackage, "phonepe") &&
      !ContainsIgnoreCase(appPackage, "paytm") && ContainsIgnoreCase(appPackage, "bhim")
    ensures r == "UPI App" <==>
      !ContainsIgnoreCase(appPackage, "google") && !ContainsIgnoreCase(appPackage, "phonepe") &&
      !ContainsIgnoreCase(appPackage, "paytm") && !ContainsIgnoreCase(appPackage, "bhim")
  {
    if ContainsIgnoreCase(appPackage, "google") then "Google Pay"
    else if ContainsIgnoreCase(appPackage, "phonepe") then "PhonePe"
    else if ContainsIgnoreCase(appPackage, "paytm") then "Paytm"
    else if ContainsIgnoreCase(appPackage, "bhim") then "BHIM"
    else "UPI App"
  }

  /** Without a sender, the four supported apps are labelled Google Pay, PhonePe and Paytm,
      and the BHIM app, whose package has no "bhim" in it, falls through to "UPI App". */
  lemma SupportedAppLabels()
    ensures AppLabel(PkgGPay) == "Google Pay"
    ensures AppLabel(PkgPhonePe) == "PhonePe"
    ensures AppLabel(PkgPaytm) == "Paytm"
    ensures AppLabel(PkgBhim) == "UPI App"
  {
    GPayLabel();
    PhonePeLabel();
    PaytmLabel();
    BhimLabel();
  }

  lemma GPayLabel()
    ensures AppLabel(PkgGPay) == "Google Pay"
  {
    GPayIsLower();
    GPayHasGoogle();
  }

  lemma PhonePeLabel()
    ensures AppLabel(PkgPhonePe) == "PhonePe"
  {
    PhonePeIsLower();
    PhonePeLacksGoogle();
    PhonePeHasPhonePe();
  }

  lemma PaytmLabel()
    ensures AppLabel(PkgPaytm) == "Paytm"
  {
    PaytmIsLower();
    PaytmLacksGoogle();
    PaytmLacksPhonePe();
    PaytmHasPaytm();
  }

  lemma BhimLabel()
    ensures AppLabel(PkgBhim) == "UPI App"
  {
    BhimIsLower();
    BhimLacksGoogle();
    BhimLacksPhonePe();
    BhimLacksPaytm();
    BhimLacksBhim();
  }

  // One fact about a package name per lemma keeps each proof small.

  lemma GPayIsLower()
    ensures Lower(PkgGPay) == PkgGPay
  {
    LowerUnchanged(PkgGPay);
  }

  lemma GPayHasGoogle()
    ensures Contains(PkgGPay, "google")
  {
    assert PkgGPay[4] == 'g' && PkgGPay[5] == 'o' && PkgGPay[6] == 'o' && PkgGPay[7] == 'g' && PkgGPay[8] == 'l' && PkgGPay[9] == 'e';
    assert PkgGPay[4..10] == "google";
    ContainsAt(PkgGPay, "google", 4);
  }

  lemma PhonePeIsLower()
    ensures Lower(PkgPhonePe) == PkgPhonePe
  {
    LowerUnchanged(PkgPhonePe);
  }

  lemma PhonePeLacksGoogle()
    ensures !Contains(PkgPhonePe, "google")
  {
    AbsentByChar(PkgPhonePe, "google", 0);
  }

  lemma PhonePeHasPhonePe()
    ensures Contains(PkgPhonePe, "phonepe")
  {
    assert PkgPhonePe[4..11] == "phonepe";
    ContainsAt(PkgPhonePe, "phonepe", 4);
  }

  lemma PaytmIsLower()
    ensures Lower(PkgPaytm) == PkgPaytm
  {
    LowerUnchanged(PkgPaytm);
  }

  lemma PaytmLacksGoogle()
    ensures !Contains(PkgPaytm, "google")
  {
    AbsentByChar(PkgPaytm, "google", 0);
  }

  lemma PaytmLacksPhonePe()
    ensures !Contains(PkgPaytm, "phonepe")
  {
    AbsentByChar(PkgPaytm, "phonepe", 1);
  }

  lemma PaytmHasPaytm()
    ensures Contains(PkgPaytm, "paytm")
  {
    assert PkgPaytm[10..] == "paytm";
    ContainsAt(PkgPaytm, "paytm", 10);
  }

  lemma BhimIsLower()
    ensures Lower(PkgBhim) == PkgBhim
  {
    LowerUnchanged(PkgBhim);
  }

  lemma BhimLacksGoogle()
    ensures !Contains(PkgBhim, "google")
  {
    AbsentByChar(PkgBhim, "google", 4);
  }

  lemma BhimLacksPhonePe()
    ensures !Contains(PkgBhim, "phonepe")
  {
    AbsentByChar(PkgBhim, "phonepe", 1);
  }

  lemma BhimLacksPaytm()
    ensures !Contains(PkgBhim, "paytm")
  {
    AbsentByChar(PkgBhim, "paytm", 2);
  }

  lemma BhimLacksBhim()
    ensures !Contains(PkgBhim, "bhim")
  {
    AbsentByChar(PkgBhim, "bhim", 0);
  }

  /** `DiffCallback.areItemsTheSame`: the same database row. */
  predicate AreItemsTheSame(oldItem: TransactionEntity, newItem: TransactionEntity) {
    oldItem.id == newItem.id
  }

  /** `DiffCallback.areContentsTheSame`: data-class equality, every field alike. */
  predicate AreContentsTheSame(oldItem: TransactionEntity, newItem: TransactionEntity) {
    oldItem == newItem
  }

  /** Equal contents imply the same item, and the same item with equal fields other than the
      key has equal contents. */
  lemma ContentsRefineItems(a: TransactionEntity, b: TransactionEntity)
    ensures AreContentsTheSame(a, b) ==> AreItemsTheSame(a, b)
    ensures AreItemsTheSame(a, b) && a.(id := b.id) == b ==> AreContentsTheSame(a, b)
  {
  }

  /** In a valid table, two different rows are never the same item: keys identify rows. */
  lemma ItemsIdentifyRows(s: Store, i: nat, j: nat)
    requires Valid(s) && i < |s.rows| && j < |s.rows| && i != j
    ensures !AreItemsTheSame(s.rows[i], s.rows[j])
  {
    if i < j {
      DistinctIdsAt(s.rows, i, j);
    } else {
      DistinctIdsAt(s.rows, j, i);
    }
  }
}
