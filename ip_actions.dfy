/** The per-address action menu of components/ip-management/ip-actions.tsx: which
    actions each status offers (the only place where status transitions are gated), and
    the component state the release and reserve handlers drive. */
module IpActions {
  import opened Common
  import opened JsStrings
  import opened IpManagement

  /** The text stored in the `status` column for a status. */
  function StatusText(s: IpStatus): string {
    match s
    case Available => "available"
    case Assigned => "assigned"
    case Reserved => "reserved"
    case Blocked => "blocked"
    case Other(t) => t
  }

  /** A status as the server writes it: an Other never carries one of the four names. */
  predicate IsStoredStatus(s: IpStatus) {
    s.Other? ==> s.text !in {"available", "assigned", "reserved", "blocked"}
  }

  /** Writing a status and reading it back gives the same status. */
  lemma StatusTextRoundTrip(s: IpStatus)
    requires IsStoredStatus(s)
    ensures StatusFromString(StatusText(s)) == s
  {
  }

  /** The server only ever stores statuses in that form. */
  lemma StatusFromStringStored(text: string)
    ensures IsStoredStatus(StatusFromString(text))
    ensures StatusText(StatusFromString(text)) == text
  {
  }

  /** The dropdown entries. */
  datatype MenuItem = ReleaseIp | ReserveIp | MakeAvailable

  /** The entries of the dropdown for an address whose status text is status
      (lines 91-108). */
  function MenuItems(status: string): (items: seq<MenuItem>)
    ensures ReleaseIp in items <==> status == "assigned"
    ensures ReserveIp in items <==> status == "available"
    ensures MakeAvailable in items <==> status == "reserved"
    ensures |items| <= 1
    ensures status !in {"assigned", "available", "reserved"} ==> items == []
  {
    (if status == "assigned" then [ReleaseIp] else [])
    + (if status == "available" then [ReserveIp] else [])
    + (if status == "reserved" then [MakeAvailable] else [])
  }

  /** The row an entry's server action leaves behind: "Release IP" and "Make Available"
      both call `releaseIPAddress`; "Reserve IP" ends in `reserveIPAddress` with the
      reason typed into the dialog. */
  function ActionResult(item: MenuItem, r: IpRecord, reason: string): IpRecord {
    match item
    case ReleaseIp => ReleasedRecord(r)
    case MakeAvailable => ReleasedRecord(r)
    case ReserveIp => ReservedRecord(r, reason)
  }

  /** Through the menu the only transitions are assigned to available, reserved to
      available and available to reserved; a blocked (or otherwise labelled) address
      offers nothing. */
  lemma MenuTransitions(r: IpRecord, item: MenuItem, reason: string)
    requires IsStoredStatus(r.status)
    requires item in MenuItems(StatusText(r.status))
    ensures r.status == Assigned ==> ActionResult(item, r, reason).status == Available
    ensures r.status == Reserved ==> ActionResult(item, r, reason).status == Available
    ensures r.status == Available ==> ActionResult(item, r, reason).status == Reserved
    ensures r.status != Blocked && !r.status.Other?
  {
  }

  /** The component's state for one address row (lines 27-29). */
  class IpActionsView {
    const ipId: Id
    var showReserveDialog: bool
    var reserveReason: string
    var isLoading: bool

    constructor (ipId: Id)
      ensures this.ipId == ipId && !showReserveDialog && reserveReason == "" && !isLoading
    {
      this.ipId := ipId;
      showReserveDialog, reserveReason, isLoading := false, "", false;
    }

    /** "Reserve IP" opens the dialog (line 98). */
    method OpenReserveDialog()
      modifies this
      ensures showReserveDialog && reserveReason == old(reserveReason) && isLoading == old(isLoading)
    {
      showReserveDialog := true;
    }

    /** Typing into the reason field (line 125). */
    method EditReason(text: string)
      modifies this
      ensures reserveReason == text && showReserveDialog == old(showReserveDialog) && isLoading == old(isLoading)
    {
      reserveReason := text;
    }

    /** "Cancel" closes the dialog and keeps the typed reason (line 131). */
    method CancelReserve()
      modifies this
      ensures !showReserveDialog && reserveReason == old(reserveReason) && isLoading == old(isLoading)
    {
      showReserveDialog := false;
    }

    /** `handleRelease` (lines 31-42), used by both "Release IP" and "Make Available". */
    method HandleRelease(store: IpStore)
      requires store.Valid()
      modifies this, store
      ensures store.Valid() && store.pools == old(store.pools) && store.nextId == old(store.nextId)
      ensures store.records == UpdateRecord(old(store.records), ipId, ReleasedRecord)
      ensures store.changeLog == old(store.changeLog) + [ReleaseLogEntry(ipId)]
      ensures !isLoading && showReserveDialog == old(showReserveDialog) && reserveReason == old(reserveReason)
    {
      isLoading := true;
      store.ReleaseIPAddress(ipId);
      isLoading := false;
    }

    /** `handleReserve` (lines 44-62): a blank reason (empty once trimmed) makes no server
        call and changes nothing; otherwise the reason is sent untrimmed, then the dialog
        closes and the field is cleared. */
    method HandleReserve(store: IpStore)
      requires store.Valid()
      modifies this, store
      ensures store.Valid() && store.pools == old(store.pools) && store.nextId == old(store.nextId)
      ensures store.changeLog == old(store.changeLog)
      ensures Trim(old(reserveReason)) == "" ==>
        && store.records == old(store.records)
        && showReserveDialog == old(showReserveDialog) && reserveReason == old(reserveReason)
        && isLoading == old(isLoading)
      ensures Trim(old(reserveReason)) != "" ==>
        && store.records == UpdateRecord(old(store.records), ipId, r => ReservedRecord(r, old(reserveReason)))
        && !showReserveDialog && reserveReason == "" && !isLoading
    {
      if Trim(reserveReason) == "" {
        return;
      }
      isLoading := true;
      store.ReserveIPAddress(ipId, reserveReason);
      showReserveDialog := false;
      reserveReason := "";
      isLoading := false;
    }
  }
}
