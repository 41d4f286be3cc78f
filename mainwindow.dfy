/** MainWindow::onStartCapture: the choice of the interface name from the
    combo box, the check that rejects it, and the hand-over to
    PacketSniffer::startCapture. The widgets and message boxes are left
    out; the outcome says which message the window shows. */
module MainWindow {
  import opened Text
  import opened Sniffer

  /** The item's data, or its displayed text when the data is empty. */
  function ChosenInterface(itemData: string, itemText: string): string
  {
    if itemData == "" then itemText else itemData
  }

  /** The name is accepted unless it is empty or contains "No"
      (case-sensitively), as the placeholder entries do. */
  predicate ValidInterface(name: string)
  {
    name != "" && !Contains(name, "No")
  }

  /** A name is accepted exactly when it is non-empty and "No" occurs
      nowhere in it. */
  lemma ValidInterfaceIff(name: string)
    ensures ValidInterface(name) <==> name != "" && forall i: nat :: !OccursAt(name, "No", i)
  {
    ContainsIff(name, "No");
  }

  /** Every name with "No" in it is refused, wherever it occurs. */
  lemma RejectsNo(a: string, b: string)
    ensures !ValidInterface(a + "No" + b)
  {
    var s := a + "No" + b;
    assert s[|a|..|a| + 2] == "No";
    assert OccursAt(s, "No", |a|);
    ContainsIff(s, "No");
  }

  /** The text is used only when the data is empty: a non-empty data
      string is checked as it is, whatever is displayed. */
  lemma ChosenFallback(itemData: string, itemText: string)
    ensures ValidInterface(ChosenInterface(itemData, itemText)) <==>
      if itemData == "" then ValidInterface(itemText) else ValidInterface(itemData)
    ensures ChosenInterface(itemData, itemText) == "" <==> itemData == "" && itemText == ""
  {
  }

  /** What the window reports after a click on Start. */
  datatype StartOutcome = Warned | Started(iface: string) | Failed

  /** onStartCapture: a refused name gives the warning and leaves the
      sniffer alone; otherwise the sniffer is asked to start on that name. */
  method OnStartCapture(sniffer: PacketSniffer, itemData: string, itemText: string,
                        platform: Platform, binds: bool) returns (r: StartOutcome)
    requires sniffer.Valid()
    modifies sniffer
    ensures sniffer.Valid()
    ensures var name := ChosenInterface(itemData, itemText);
      !ValidInterface(name) ==> r == Warned && unchanged(sniffer)
    ensures var name := ChosenInterface(itemData, itemText);
      ValidInterface(name) ==>
        && (r == Started(name) <==> !old(sniffer.capturing) && (platform == Linux || binds))
        && (r != Started(name) ==> r == Failed)
    ensures r.Started? ==>
      sniffer.capturing && sniffer.packetCount == 0 && sniffer.socketOpen == (platform == Android)
    ensures r == Failed ==>
      && sniffer.capturing == old(sniffer.capturing)
      && sniffer.packetCount == old(sniffer.packetCount)
      && sniffer.socketOpen == old(sniffer.socketOpen)
  {
    var iface := itemData;
    if iface == "" {
      iface := itemText;
    }
    if iface == "" || Contains(iface, "No") {
      return Warned;
    }
    var ok := sniffer.StartCapture(iface, platform, binds);
    if ok {
      r := Started(iface);
    } else {
      r := Failed;
    }
  }
}
