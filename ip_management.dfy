/** The server actions of lib/actions/ip-management.ts: the address-space generator
    (`calculateIPRange`), its batched insertion (`generateIPAddresses`), pool creation and
    update with their DNS-list parsing, and the single-record rewrites of the
    `ip_addresses` table (`assignIPAddress`, `releaseIPAddress`, `reserveIPAddress`,
    `bulkUpdateIPStatus`) with the append-only `change_logs` table beside it. */
module IpManagement {
  import opened Common
  import opened JsStrings
  import opened Ipv4

  /** Row identifiers handed out by the database. */
  type Id = nat

  /** The `status` column of `ip_addresses`. Any other text a bulk update writes is kept
      as Other. */
  datatype IpStatus = Available | Assigned | Reserved | Blocked | Other(text: string)

  /** The status a status string names. */
  function StatusFromString(s: string): IpStatus {
    if s == "available" then Available
    else if s == "assigned" then Assigned
    else if s == "reserved" then Reserved
    else if s == "blocked" then Blocked
    else Other(s)
  }

  /** `x || null` on a text field: the empty string is stored as null. */
  function NullIfEmpty(s: string): Option<string> {
    if s == "" then None else Some(s)
  }

  // ---- Address-space generation (lines 191-233) ----

  /** One generated address with its initial status. */
  datatype RangeEntry = RangeEntry(address: string, status: IpStatus)

  /** How many addresses the loop at line 222 emits for a prefix length:
      2^(32-p) - 2, and none once p is 31 or more. */
  function UsableCount(prefix: int): nat {
    if prefix > 30 then 0 else Pow2(32 - prefix) - 2
  }

  /** Offset k of the generated list stands for the network address plus k + 1,
      modulo 2^32. The network address is not masked by the prefix. */
  function HostAddress(network: U32, k: nat): U32 {
    (network + k + 1) % TWO32
  }

  /** An address is marked reserved exactly when its text equals the gateway's. */
  function EntryFor(address: string, gateway: string): RangeEntry {
    RangeEntry(address, if address == gateway then Reserved else Available)
  }

  /** The entry at offset k of the range over the network address n. */
  function RangeEntryAt(n: U32, k: nat, gateway: string): RangeEntry {
    EntryFor(Format(HostAddress(n, k)), gateway)
  }

  /** The list `calculateIPRange` returns, stated as a function of its inputs. */
  function AddressRange(networkAddress: string, prefix: int, gateway: string): seq<RangeEntry>
    requires IsDottedQuad(networkAddress)
  {
    RangeFrom(ParseAddress(networkAddress), prefix, gateway)
  }

  /** The entries generated after the network address n: one per offset. */
  function RangeFrom(n: U32, prefix: int, gateway: string): seq<RangeEntry> {
    seq(UsableCount(prefix), k requires 0 <= k < UsableCount(prefix) => RangeEntryAt(n, k, gateway))
  }

  /** The loop bound 2^hostBits - 1 (0 for a negative hostBits) runs the loop exactly
      UsableCount times. */
  lemma LoopLimit(prefix: int)
    ensures var limit := if 32 - prefix >= 0 then Pow2(32 - prefix) - 1 else 0;
      UsableCount(prefix) == if limit >= 1 then limit - 1 else 0
  {
    if prefix == 31 {
      assert Pow2(1) == 2;
    } else if prefix <= 30 {
      Pow2Monotone(2, 32 - prefix);
      assert Pow2(2) == 4;
    }
  }

  /** `calculateIPRange(networkAddress, subnetMask, gateway)` (lines 210-233). A missing
      gateway is the empty string, which no generated address equals. */
  method CalculateIPRange(networkAddress: string, subnetMask: int, gateway: string)
    returns (entries: seq<RangeEntry>)
    requires IsDottedQuad(networkAddress)
    ensures entries == AddressRange(networkAddress, subnetMask, gateway)
  {
    var networkParts := Octets(networkAddress);
    var networkNum := JsNetworkNumber(networkParts);
    var hostBits := 32 - subnetMask;
    // The loop runs while i < Math.pow(2, hostBits) - 1; with hostBits < 0 the power
    // is below 1 and the loop does not run at all.
    var limit := if hostBits >= 0 then Pow2(hostBits) - 1 else 0;
    ghost var n := ParseAddress(networkAddress);
    LoopLimit(subnetMask);
    entries := [];
    var i := 1;
    while i < limit
      invariant 1 <= i && (i <= limit || i == 1)
      invariant |entries| == i - 1
      invariant forall k :: 0 <= k < i - 1 ==> entries[k] == RangeEntryAt(n, k, gateway)
    {
      var ipNum := networkNum + i;
      JsNetworkNumberWraps(networkParts, i);
      assert ToUint32(ipNum) == HostAddress(n, i - 1);
      var ip := Format(ToUint32(ipNum));
      var status := if ip == gateway then Reserved else Available;
      ExtendRange(entries, n, gateway, RangeEntry(ip, status));
      entries := entries + [RangeEntry(ip, status)];
      i := i + 1;
    }
    assert |entries| == UsableCount(subnetMask);
  }

  /** Appending the entry of the next offset keeps a list the range's prefix. */
  lemma ExtendRange(entries: seq<RangeEntry>, n: U32, gateway: string, e: RangeEntry)
    requires forall k :: 0 <= k < |entries| ==> entries[k] == RangeEntryAt(n, k, gateway)
    requires e == RangeEntryAt(n, |entries|, gateway)
    ensures forall k :: 0 <= k < |entries| + 1 ==> (entries + [e])[k] == RangeEntryAt(n, k, gateway)
  {
  }

  /** No block is larger than the whole address space. */
  lemma Pow2AtMost32(e: nat)
    requires e <= 32
    ensures Pow2(e) <= TWO32
  {
    Pow2Monotone(e, 32);
    Pow2Of32();
  }

  lemma Pow2Of32()
    ensures Pow2(32) == TWO32
  {
    assert Pow2(8) == 256;
    assert Pow2(16) == 256 * Pow2(8);
    assert Pow2(24) == 256 * Pow2(16);
    assert Pow2(32) == 256 * Pow2(24);
  }

  /** Two offsets less than 2^32 apart land on different addresses. */
  lemma OffsetsApart(n: int, a: int, b: int)
    requires 0 <= a < b < TWO32
    ensures (n + a) % TWO32 != (n + b) % TWO32
  {
    var r, c := (n + a) % TWO32, b - a;
    var q := (n + a) / TWO32;
    assert n + b == q * TWO32 + (r + c);
    ModMultiple(q, r + c);
    if r + c < TWO32 {
      assert (r + c) % TWO32 == r + c;
    } else {
      assert (r + c) % TWO32 == r + c - TWO32;
    }
  }

  lemma ModMultiple(q: int, z: int)
    ensures (q * TWO32 + z) % TWO32 == z % TWO32
  {
  }

  /** A prefix of at most 30 gives 2^(32-p) - 2 addresses; 31 and 32 give none. */
  lemma RangeLength(n: U32, prefix: int, gateway: string)
    ensures prefix <= 30 ==> |RangeFrom(n, prefix, gateway)| == Pow2(32 - prefix) - 2
    ensures prefix == 31 || prefix == 32 ==> RangeFrom(n, prefix, gateway) == []
    ensures 0 <= prefix ==> |RangeFrom(n, prefix, gateway)| < TWO32 - 1
  {
    if 0 <= prefix <= 30 {
      Pow2AtMost32(32 - prefix);
    }
  }

  /** No two generated addresses are equal (for a prefix length of at least 0). */
  lemma RangeDistinct(n: U32, prefix: int, gateway: string, j: int, k: int)
    requires 0 <= prefix
    requires 0 <= j < k < |RangeFrom(n, prefix, gateway)|
    ensures RangeFrom(n, prefix, gateway)[j].address != RangeFrom(n, prefix, gateway)[k].address
  {
    RangeLength(n, prefix, gateway);
    OffsetsApart(n, j + 1, k + 1);
    FormatInjective(HostAddress(n, j), HostAddress(n, k));
  }

  /** The network address N itself is never generated. */
  lemma RangeExcludesNetwork(n: U32, prefix: int, gateway: string, k: int)
    requires 0 <= prefix
    requires 0 <= k < |RangeFrom(n, prefix, gateway)|
    ensures RangeFrom(n, prefix, gateway)[k].address != Format(n)
  {
    RangeLength(n, prefix, gateway);
    assert RangeFrom(n, prefix, gateway)[k].address == Format(HostAddress(n, k));
    HostAddressNotNetwork(n, k);
  }

  /** N + 2^(32-p) - 1, the broadcast address of an aligned block of size 2^(32-p), is
      never generated. */
  lemma RangeExcludesBroadcast(n: U32, prefix: int, gateway: string, k: int, size: int)
    requires 0 <= prefix <= 30 && size == Pow2(32 - prefix)
    requires 0 <= k < |RangeFrom(n, prefix, gateway)|
    ensures RangeFrom(n, prefix, gateway)[k].address != Format((n + size - 1) % TWO32)
  {
    RangeLength(n, prefix, gateway);
    assert size == |RangeFrom(n, prefix, gateway)| + 2;
    assert RangeFrom(n, prefix, gateway)[k].address == Format(HostAddress(n, k));
    HostAddressNotLast(n, size, k);
  }

  /** Offset k is not the block's first address. */
  lemma HostAddressNotNetwork(n: U32, k: nat)
    requires k + 1 < TWO32
    ensures Format(HostAddress(n, k)) != Format(n)
  {
    OffsetsApart(n, 0, k + 1);
    assert n % TWO32 == n;
    FormatInjective(n, HostAddress(n, k));
  }

  /** Offset k of a block of t addresses is not its last address. */
  lemma HostAddressNotLast(n: U32, t: int, k: nat)
    requires t <= TWO32 && k + 2 < t
    ensures Format(HostAddress(n, k)) != Format((n + t - 1) % TWO32)
  {
    OffsetsApart(n, k + 1, t - 1);
    FormatInjective(HostAddress(n, k), (n + t - 1) % TWO32);
  }

  /** At most one generated entry is reserved, and it is the gateway's. */
  lemma AtMostOneReserved(n: U32, prefix: int, gateway: string, j: int, k: int)
    requires 0 <= prefix
    requires 0 <= j < |RangeFrom(n, prefix, gateway)|
    requires 0 <= k < |RangeFrom(n, prefix, gateway)|
    requires RangeFrom(n, prefix, gateway)[j].status == Reserved
    requires RangeFrom(n, prefix, gateway)[k].status == Reserved
    ensures j == k && RangeFrom(n, prefix, gateway)[j].address == gateway
  {
    if j < k {
      RangeDistinct(n, prefix, gateway, j, k);
    } else if k < j {
      RangeDistinct(n, prefix, gateway, k, j);
    }
  }

  /** With no gateway (or one that is not a dotted quad in canonical form) every
      generated entry is available. */
  lemma NoGatewayNoneReserved(n: U32, prefix: int, gateway: string, k: int)
    requires !IsCanonicalDottedQuad(gateway)
    requires 0 <= k < |RangeFrom(n, prefix, gateway)|
    ensures RangeFrom(n, prefix, gateway)[k].status == Available
  {
    ParseFormat(HostAddress(n, k));
  }

  /** A /30 whose gateway is its first host address: the gateway reserved, the one
      address after it free. */
  lemma SlashThirty(n: U32, gateway: string)
    requires gateway == Format(HostAddress(n, 0))
    ensures RangeFrom(n, 30, gateway) == [RangeEntry(gateway, Reserved), RangeEntry(Format(HostAddress(n, 1)), Available)]
  {
    RangeOfTwo(n, gateway);
    OffsetsApart(n, 1, 2);
    FormatInjective(HostAddress(n, 0), HostAddress(n, 1));
  }

  /** A /30 yields exactly the two addresses after the network address. */
  lemma RangeOfTwo(n: U32, gateway: string)
    ensures RangeFrom(n, 30, gateway) == [RangeEntryAt(n, 0, gateway), RangeEntryAt(n, 1, gateway)]
  {
    assert Pow2(2) == 4;
  }

  /** A negative prefix is not refused: `parseInt("-1")` gives 33 host bits, the loop
      runs 2^33 - 2 times, and the range wraps round to repeat its own addresses, so a
      gateway inside it is reserved twice. */
  lemma {:induction false} NegativePrefixRepeats(n: U32, gateway: string)
    ensures |RangeFrom(n, -1, gateway)| == 2 * TWO32 - 2
    ensures RangeFrom(n, -1, gateway)[TWO32] == RangeFrom(n, -1, gateway)[0]
  {
    Pow2Of32();
    assert Pow2(33) == 2 * Pow2(32);
    ModMultiple(1, n + 1);
    assert HostAddress(n, TWO32) == HostAddress(n, 0);
  }

  // ---- Batched insertion (lines 191-208) ----

  /** A row inserted into `ip_addresses` by `generateIPAddresses`. */
  datatype AddressRow = AddressRow(poolId: Id, ipAddress: string, status: IpStatus)

  const BatchSize: nat := 100

  function RowsFor(poolId: Id, entries: seq<RangeEntry>): (rows: seq<AddressRow>)
    ensures |rows| == |entries|
    ensures forall i :: 0 <= i < |rows| ==> rows[i] == AddressRow(poolId, entries[i].address, entries[i].status)
  {
    seq(|entries|, i requires 0 <= i < |entries| => AddressRow(poolId, entries[i].address, entries[i].status))
  }

  /** The concatenation of the batches, in order. */
  function Flatten<T>(batches: seq<seq<T>>): seq<T> {
    if batches == [] then [] else Flatten(batches[..|batches| - 1]) + batches[|batches| - 1]
  }

  /** `generateIPAddresses` (lines 191-208): the batches it inserts, in order. Every batch
      holds 1 to 100 rows, all but the last exactly 100, every row carries the pool's id,
      and together they are the generated range in order. */
  method GenerateIPAddresses(poolId: Id, networkAddress: string, subnetMask: int, gateway: string)
    returns (batches: seq<seq<AddressRow>>)
    requires IsDottedQuad(networkAddress)
    ensures Flatten(batches) == RowsFor(poolId, AddressRange(networkAddress, subnetMask, gateway))
    ensures forall j :: 0 <= j < |batches| ==> 0 < |batches[j]| <= BatchSize
    ensures forall j :: 0 <= j < |batches| - 1 ==> |batches[j]| == BatchSize
    ensures forall j, r :: 0 <= j < |batches| && r in batches[j] ==> r.poolId == poolId
  {
    var ipAddresses := CalculateIPRange(networkAddress, subnetMask, gateway);
    batches := [];
    var i := 0;
    while i < |ipAddresses|
      invariant i <= |ipAddresses| || (|ipAddresses| < i && i - BatchSize < |ipAddresses|)
      invariant BatchesCover(poolId, ipAddresses, batches, if i <= |ipAddresses| then i else |ipAddresses|)
      invariant |batches| > 0 && |batches[|batches| - 1]| < BatchSize ==> i >= |ipAddresses|
    {
      var end := if i + BatchSize <= |ipAddresses| then i + BatchSize else |ipAddresses|;
      var batch := RowsFor(poolId, ipAddresses[i..end]);
      BatchStep(poolId, ipAddresses, batches, i, end);
      batches := batches + [batch];
      i := i + BatchSize;
    }
    assert ipAddresses[..|ipAddresses|] == ipAddresses;
  }

  /** The batches are the rows of the first `done` entries, cut into slices of 1 to 100
      rows of which only the last may be short, every row carrying the pool's id. */
  ghost predicate BatchesCover(poolId: Id, entries: seq<RangeEntry>, batches: seq<seq<AddressRow>>, done: nat)
    requires done <= |entries|
  {
    && Flatten(batches) == RowsFor(poolId, entries[..done])
    && (forall j :: 0 <= j < |batches| ==> 0 < |batches[j]| <= BatchSize)
    && (forall j :: 0 <= j < |batches| - 1 ==> |batches[j]| == BatchSize)
    && (forall j, r :: 0 <= j < |batches| && r in batches[j] ==> r.poolId == poolId)
  }

  /** One more slice, taken after `start` full batches, extends the cover to its end. */
  lemma BatchStep(poolId: Id, entries: seq<RangeEntry>, batches: seq<seq<AddressRow>>, start: nat, end: nat)
    requires start < end <= |entries| && end - start <= BatchSize
    requires BatchesCover(poolId, entries, batches, start)
    requires |batches| > 0 ==> |batches[|batches| - 1]| == BatchSize
    ensures BatchesCover(poolId, entries, batches + [RowsFor(poolId, entries[start..end])], end)
  {
    var batch := RowsFor(poolId, entries[start..end]);
    var next := batches + [batch];
    assert RowsFor(poolId, entries[..end]) == RowsFor(poolId, entries[..start]) + batch;
    assert next[..|next| - 1] == batches;
    forall j, r: AddressRow | 0 <= j < |next| && r in next[j]
      ensures r.poolId == poolId
    {
      if j == |batches| {
        var k :| 0 <= k < |batch| && batch[k] == r;
      }
    }
  }

  // ---- Pool settings (lines 7-86) ----

  /** The trimmed, non-empty fields of a comma-separated list, in order. */
  function CleanFields(fields: seq<string>): (r: seq<string>)
    ensures |r| <= |fields|
  {
    if fields == [] then []
    else
      var t := Trim(fields[0]);
      if t == "" then CleanFields(fields[1..]) else [t] + CleanFields(fields[1..])
  }

  /** Every kept field is non-empty and trimmed, and comma-free when the input fields are. */
  lemma {:induction false} CleanFieldsSpec(fields: seq<string>)
    ensures forall i :: 0 <= i < |CleanFields(fields)| ==> CleanFields(fields)[i] != "" && IsTrimmed(CleanFields(fields)[i])
    ensures (forall j :: 0 <= j < |fields| ==> ',' !in fields[j]) ==>
      forall i :: 0 <= i < |CleanFields(fields)| ==> ',' !in CleanFields(fields)[i]
    decreases |fields|
  {
    if fields != [] {
      var rest := fields[1..];
      CleanFieldsSpec(rest);
      assert forall j :: 1 <= j < |fields| ==> fields[j] == rest[j - 1];
      var t := Trim(fields[0]);
      if t != "" {
        var r := CleanFields(fields);
        assert r == [t] + CleanFields(rest);
        assert forall i :: 1 <= i < |r| ==> r[i] == CleanFields(rest)[i - 1];
      }
    }
  }

  /** The `dns_servers` column written by `createIPPool` and `updateIPPool`: split on
      commas, trim, drop empty entries, and store null when nothing is left. */
  function ParseDnsServers(dnsServers: string): (r: Option<seq<string>>)
    ensures r.Some? ==> |r.value| > 0
    ensures r.Some? ==> forall i :: 0 <= i < |r.value| ==> r.value[i] != "" && IsTrimmed(r.value[i]) && ',' !in r.value[i]
  {
    var dnsArray := if dnsServers == "" then [] else CleanFields(Split(dnsServers, ','));
    CleanFieldsSpec(Split(dnsServers, ','));
    if |dnsArray| > 0 then Some(dnsArray) else None
  }

  lemma {:induction false} CleanFieldsOfClean(fields: seq<string>)
    requires forall i :: 0 <= i < |fields| ==> fields[i] != "" && IsTrimmed(fields[i])
    ensures CleanFields(fields) == fields
    decreases |fields|
  {
    if fields != [] {
      TrimOfTrimmed(fields[0]);
      CleanFieldsOfClean(fields[1..]);
    }
  }

  /** Every field is blank once trimmed. */
  predicate AllBlank(fields: seq<string>) {
    forall i :: 0 <= i < |fields| ==> Trim(fields[i]) == ""
  }

  lemma {:induction false} CleanFieldsEmpty(fields: seq<string>)
    ensures CleanFields(fields) == [] <==> AllBlank(fields)
    decreases |fields|
  {
    if fields != [] {
      var rest := fields[1..];
      CleanFieldsEmpty(rest);
      assert AllBlank(fields) <==> Trim(fields[0]) == "" && AllBlank(rest) by {
        assert forall i :: 1 <= i < |fields| ==> fields[i] == rest[i - 1];
      }
    }
  }

  /** A list of non-empty, trimmed, comma-free server names survives being written
      out comma-separated and parsed back. */
  lemma DnsRoundTrip(servers: seq<string>)
    requires |servers| > 0
    requires forall i :: 0 <= i < |servers| ==> servers[i] != "" && IsTrimmed(servers[i]) && ',' !in servers[i]
    ensures ParseDnsServers(Join(servers, ',')) == Some(servers)
  {
    var s := Join(servers, ',');
    assert |servers| == 1 || s == servers[0] + [','] + Join(servers[1..], ',');
    assert s != "";
    SplitJoin(servers, ',');
    CleanFieldsOfClean(servers);
  }

  /** The column is null exactly when every comma-separated field is blank. */
  lemma DnsNullIffBlank(dnsServers: string)
    ensures ParseDnsServers(dnsServers) == None <==> AllBlank(Split(dnsServers, ','))
  {
    var fields := Split(dnsServers, ',');
    CleanFieldsEmpty(fields);
    if dnsServers == "" {
      assert fields == [[]];
    }
  }

  /** The text fields of the pool form; an absent field is the empty string. */
  datatype PoolForm = PoolForm(name: string, description: string, networkAddress: string,
                               subnetMask: string, gateway: string, vlanId: string, dnsServers: string)

  /** A row of `ip_pools`. A NaN number is stored as null (None). */
  datatype IpPool = IpPool(name: string, description: string, networkAddress: string,
                           subnetMask: Option<int>, gateway: Option<string>, vlanId: Option<int>,
                           dnsServers: Option<seq<string>>)

  /** The row `createIPPool` inserts (lines 27-37). */
  function NewPool(form: PoolForm): IpPool {
    IpPool(form.name, form.description, form.networkAddress, ParseInt(form.subnetMask),
           NullIfEmpty(form.gateway), if form.vlanId == "" then None else ParseInt(form.vlanId),
           ParseDnsServers(form.dnsServers))
  }

  /** The row `updateIPPool` writes over an existing pool (lines 68-77): network address
      and prefix length are kept. */
  function UpdatedPool(pool: IpPool, form: PoolForm): IpPool {
    pool.(name := form.name, description := form.description, gateway := NullIfEmpty(form.gateway),
          vlanId := if form.vlanId == "" then None else ParseInt(form.vlanId),
          dnsServers := ParseDnsServers(form.dnsServers))
  }

  // ---- The ip_addresses ledger (lines 88-189) ----

  /** A row of `ip_addresses`. */
  datatype IpRecord = IpRecord(poolId: Id, ipAddress: string, status: IpStatus,
                               hostname: Option<string>, assetId: Option<string>,
                               assignmentDate: Option<string>, notes: Option<string>)

  function NewRecord(row: AddressRow): IpRecord {
    IpRecord(row.poolId, row.ipAddress, row.status, None, None, None, None)
  }

  /** The row after `assignIPAddress`: status assigned, consumer and hostname set (null
      when given empty), assignment time set; whatever the previous status was. */
  function AssignedRecord(r: IpRecord, assetId: string, hostname: string, now: string): (a: IpRecord)
    ensures a.status == Assigned && a.assignmentDate == Some(now)
    ensures a.assetId.None? <==> assetId == ""
    ensures a.hostname.None? <==> hostname == ""
    ensures a.assetId.Some? ==> a.assetId.value == assetId
    ensures a.hostname.Some? ==> a.hostname.value == hostname
    ensures a.poolId == r.poolId && a.ipAddress == r.ipAddress && a.notes == r.notes
  {
    r.(assetId := NullIfEmpty(assetId), hostname := NullIfEmpty(hostname),
       status := Assigned, assignmentDate := Some(now))
  }

  /** The row after `releaseIPAddress`: available, with consumer, hostname and assignment
      time cleared; the note is kept. */
  function ReleasedRecord(r: IpRecord): (a: IpRecord)
    ensures a.status == Available && a.assetId == None && a.hostname == None && a.assignmentDate == None
    ensures a.poolId == r.poolId && a.ipAddress == r.ipAddress && a.notes == r.notes
  {
    r.(assetId := None, hostname := None, status := Available, assignmentDate := None)
  }

  /** The row after `reserveIPAddress`: only status and note change. */
  function ReservedRecord(r: IpRecord, reason: string): (a: IpRecord)
    ensures a.status == Reserved && a.notes == Some(reason)
    ensures a == r.(status := a.status, notes := a.notes)
  {
    r.(status := Reserved, notes := Some(reason))
  }

  /** The row after `bulkUpdateIPStatus`: the new status, and the reason as note only
      when one is given. */
  function BulkUpdatedRecord(r: IpRecord, status: string, reason: string): (a: IpRecord)
    ensures a.status == StatusFromString(status)
    ensures a.notes == if reason == "" then r.notes else Some(reason)
    ensures a == r.(status := a.status, notes := a.notes)
  {
    if reason == "" then r.(status := StatusFromString(status))
    else r.(status := StatusFromString(status), notes := Some(reason))
  }

  /** Assigning and then releasing leaves the row as releasing alone would: nothing of
      the assignment's arguments survives. */
  lemma ReleaseForgetsAssignment(r: IpRecord, assetId: string, hostname: string, now: string)
    ensures ReleasedRecord(AssignedRecord(r, assetId, hostname, now)) == ReleasedRecord(r)
  {
  }

  /** What an audit entry says changed. */
  datatype LoggedChanges = LoggedChanges(status: string, assetId: Option<string>, hostname: Option<string>)

  /** A row of `change_logs`. */
  datatype ChangeEntry = ChangeEntry(tableName: string, recordId: Id, action: string,
                                     changes: LoggedChanges, description: string)

  /** The entry `assignIPAddress` appends (lines 110-120); the raw form values are logged. */
  function AssignLogEntry(ipId: Id, assetId: string, hostname: string): ChangeEntry {
    ChangeEntry("ip_addresses", ipId, "UPDATE", LoggedChanges("assigned", Some(assetId), Some(hostname)),
                "IP address assigned to " + (if hostname == "" then "asset" else hostname))
  }

  /** The entry `releaseIPAddress` appends (lines 143-153). */
  function ReleaseLogEntry(ipId: Id): ChangeEntry {
    ChangeEntry("ip_addresses", ipId, "UPDATE", LoggedChanges("available", None, None), "IP address released")
  }

  /** `x.eq("id", id).update(f)`: rewrite the row with that id, if there is one. */
  function UpdateRecord(records: map<Id, IpRecord>, id: Id, f: IpRecord -> IpRecord): map<Id, IpRecord> {
    if id in records then records[id := f(records[id])] else records
  }

  /** The rows `createIPPool` generates for a new pool: none when the prefix length
      is NaN, since `Math.pow(2, NaN)` bounds no iteration. */
  function PoolRows(poolId: Id, form: PoolForm): seq<AddressRow>
    requires IsDottedQuad(form.networkAddress)
  {
    var prefix := ParseInt(form.subnetMask);
    if prefix.Some? then RowsFor(poolId, AddressRange(form.networkAddress, prefix.value, form.gateway)) else []
  }

  /** The records an insert of rows creates when the ids start at start. */
  function NewRecords(start: Id, rows: seq<AddressRow>): map<Id, IpRecord> {
    if rows == [] then map[]
    else NewRecords(start, rows[..|rows| - 1])[start + |rows| - 1 := NewRecord(rows[|rows| - 1])]
  }

  /** The inserted rows take the ids start to start + |rows| - 1. */
  lemma {:induction false} NewRecordsDomain(start: Id, rows: seq<AddressRow>)
    ensures forall id :: id in NewRecords(start, rows) <==> start <= id < start + |rows|
    decreases |rows|
  {
    if rows != [] {
      NewRecordsDomain(start, rows[..|rows| - 1]);
    }
  }

  /** The record with id start + i is made from row i. */
  lemma {:induction false} NewRecordsAt(start: Id, rows: seq<AddressRow>, i: nat)
    requires i < |rows|
    ensures start + i in NewRecords(start, rows) && NewRecords(start, rows)[start + i] == NewRecord(rows[i])
    decreases |rows|
  {
    if i < |rows| - 1 {
      NewRecordsAt(start, rows[..|rows| - 1], i);
    }
  }

  /** Inserting a then b hands out the same ids as inserting a + b at once. */
  lemma {:induction false} NewRecordsAppend(start: Id, a: seq<AddressRow>, b: seq<AddressRow>)
    ensures NewRecords(start, a) + NewRecords(start + |a|, b) == NewRecords(start, a + b)
    decreases |b|
  {
    if b == [] {
      assert a + b == a;
    } else {
      var init := b[..|b| - 1];
      NewRecordsAppend(start, a, init);
      assert (a + b)[..|a + b| - 1] == a + init;
      UnionUpdate(NewRecords(start, a), NewRecords(start + |a|, init), start + |a| + |init|, NewRecord(b[|b| - 1]));
    }
  }

  /** Updating the right operand of a map union updates the union. */
  lemma UnionUpdate<K, V>(m: map<K, V>, n: map<K, V>, k: K, v: V)
    ensures m + n[k := v] == (m + n)[k := v]
  {
  }

  /** Inserting batch j after batches 0 to j - 1 gives the records of batches 0 to j. */
  lemma InsertStep(before: map<Id, IpRecord>, start: Id, batches: seq<seq<AddressRow>>, j: nat)
    requires j < |batches|
    ensures |Flatten(batches[..j + 1])| == |Flatten(batches[..j])| + |batches[j]|
    ensures (before + NewRecords(start, Flatten(batches[..j]))) + NewRecords(start + |Flatten(batches[..j])|, batches[j])
         == before + NewRecords(start, Flatten(batches[..j + 1]))
  {
    FlattenStep(batches, j);
    NewRecordsAppend(start, Flatten(batches[..j]), batches[j]);
  }

  lemma FlattenStep<T>(batches: seq<seq<T>>, j: nat)
    requires j < |batches|
    ensures Flatten(batches[..j + 1]) == Flatten(batches[..j]) + batches[j]
  {
    assert batches[..j + 1][..j] == batches[..j];
  }

  /** The `ip_pools`, `ip_addresses` and `change_logs` tables. Row ids come from one
      counter, as a database sequence would hand them out. */
  class IpStore {
    var pools: map<Id, IpPool>
    var records: map<Id, IpRecord>
    var changeLog: seq<ChangeEntry>
    var nextId: Id

    /** Every id in use was handed out before. */
    ghost predicate Valid()
      reads this
    {
      (forall id :: id in pools ==> id < nextId) && (forall id :: id in records ==> id < nextId)
    }

    constructor ()
      ensures Valid() && pools == map[] && records == map[] && changeLog == [] && nextId == 0
    {
      pools, records, changeLog, nextId := map[], map[], [], 0;
    }

    /** `assignIPAddress` (lines 88-123). There is no check of the previous status; a
        missing id changes no row but is still logged. */
    method AssignIPAddress(ipId: Id, assetId: string, hostname: string, now: string)
      requires Valid()
      modifies this
      ensures Valid() && pools == old(pools) && nextId == old(nextId)
      ensures records == UpdateRecord(old(records), ipId, r => AssignedRecord(r, assetId, hostname, now))
      ensures changeLog == old(changeLog) + [AssignLogEntry(ipId, assetId, hostname)]
    {
      records := UpdateRecord(records, ipId, r => AssignedRecord(r, assetId, hostname, now));
      changeLog := changeLog + [AssignLogEntry(ipId, assetId, hostname)];
    }

    /** `releaseIPAddress` (lines 125-156), from any status. */
    method ReleaseIPAddress(ipId: Id)
      requires Valid()
      modifies this
      ensures Valid() && pools == old(pools) && nextId == old(nextId)
      ensures records == UpdateRecord(old(records), ipId, ReleasedRecord)
      ensures changeLog == old(changeLog) + [ReleaseLogEntry(ipId)]
    {
      records := UpdateRecord(records, ipId, ReleasedRecord);
      changeLog := changeLog + [ReleaseLogEntry(ipId)];
    }

    /** `reserveIPAddress` (lines 158-174): no status check, no audit entry. */
    method ReserveIPAddress(ipId: Id, reason: string)
      requires Valid()
      modifies this
      ensures Valid() && pools == old(pools) && nextId == old(nextId)
      ensures records == UpdateRecord(old(records), ipId, r => ReservedRecord(r, reason))
      ensures changeLog == old(changeLog)
    {
      records := UpdateRecord(records, ipId, r => ReservedRecord(r, reason));
    }

    /** `bulkUpdateIPStatus` (lines 176-189): every listed row gets the status, and the
        note when a reason is given; unlisted rows are untouched; no audit entry. */
    method BulkUpdateIPStatus(ipIds: seq<Id>, status: string, reason: string)
      requires Valid()
      modifies this
      ensures Valid() && pools == old(pools) && nextId == old(nextId)
      ensures records.Keys == old(records).Keys
      ensures forall id :: id in records ==>
        records[id] == if id in ipIds then BulkUpdatedRecord(old(records)[id], status, reason) else old(records)[id]
      ensures changeLog == old(changeLog)
    {
      records := map id | id in records :: if id in ipIds then BulkUpdatedRecord(records[id], status, reason) else records[id];
    }

    /** One `insert(batch)`: each row gets the next id. */
    method InsertRows(rows: seq<AddressRow>)
      requires Valid()
      modifies this
      ensures Valid() && pools == old(pools) && changeLog == old(changeLog)
      ensures nextId == old(nextId) + |rows|
      ensures records == old(records) + NewRecords(old(nextId), rows)
    {
      NewRecordsDomain(nextId, rows);
      records := records + NewRecords(nextId, rows);
      nextId := nextId + |rows|;
    }

    /** The inserts of `generateIPAddresses`, one batch after another. */
    method InsertBatches(batches: seq<seq<AddressRow>>)
      requires Valid()
      modifies this
      ensures Valid() && pools == old(pools) && changeLog == old(changeLog)
      ensures nextId == old(nextId) + |Flatten(batches)|
      ensures records == old(records) + NewRecords(old(nextId), Flatten(batches))
    {
      var j := 0;
      while j < |batches|
        invariant j <= |batches| && Valid()
        invariant pools == old(pools) && changeLog == old(changeLog)
        invariant nextId == old(nextId) + |Flatten(batches[..j])|
        invariant records == old(records) + NewRecords(old(nextId), Flatten(batches[..j]))
      {
        InsertStep(old(records), old(nextId), batches, j);
        ghost var before, start := records, nextId;
        InsertRows(batches[j]);
        assert records == before + NewRecords(start, batches[j]);
        j := j + 1;
      }
      assert batches[..|batches|] == batches;
    }

    /** The insert into `ip_pools`: the new pool gets the next id. */
    method InsertPool(pool: IpPool) returns (poolId: Id)
      requires Valid()
      modifies this
      ensures Valid() && records == old(records) && changeLog == old(changeLog)
      ensures poolId == old(nextId) && nextId == poolId + 1 && pools == old(pools)[poolId := pool]
    {
      poolId := nextId;
      pools := pools[poolId := pool];
      nextId := nextId + 1;
    }

    /** `createIPPool` (lines 7-50): insert the pool row, then its addresses batch by
        batch. */
    method CreateIPPool(form: PoolForm) returns (poolId: Id)
      requires Valid() && IsDottedQuad(form.networkAddress)
      modifies this
      ensures Valid() && changeLog == old(changeLog)
      ensures poolId == old(nextId) && pools == old(pools)[poolId := NewPool(form)]
      ensures nextId == poolId + 1 + |PoolRows(poolId, form)|
      ensures records == old(records) + NewRecords(poolId + 1, PoolRows(poolId, form))
    {
      poolId := InsertPool(NewPool(form));
      var prefix := ParseInt(form.subnetMask);
      var batches := [];
      if prefix.Some? {
        batches := GenerateIPAddresses(poolId, form.networkAddress, prefix.value, form.gateway);
        assert Flatten(batches) == PoolRows(poolId, form);
      } else {
        assert Flatten(batches) == PoolRows(poolId, form);
      }
      InsertBatches(batches);
    }

    /** `updateIPPool` (lines 52-86). */
    method UpdateIPPool(poolId: Id, form: PoolForm)
      requires Valid()
      modifies this
      ensures Valid() && records == old(records) && changeLog == old(changeLog) && nextId == old(nextId)
      ensures pools == if poolId in old(pools) then old(pools)[poolId := UpdatedPool(old(pools)[poolId], form)] else old(pools)
    {
      if poolId in pools {
        pools := pools[poolId := UpdatedPool(pools[poolId], form)];
      }
    }
  }
}
