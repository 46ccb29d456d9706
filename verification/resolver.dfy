/** The port resolver of main.go (`getDefaultPort`, lines 227-347) for the
    darwin, linux and windows branch, as a pure function: the enumerator's
    port records, the fallback listing and the target's `serial-port`
    fingerprints are passed in as data. An `Option` input that is `None`
    stands for a call that returned an error. */
module PortResolver {
  import opened Wrappers
  import opened Text
  import opened Hex

  /** One record of the detailed port enumeration: the device name, whether
      it is a USB device, and its vendor and product IDs as hex text (empty
      when the enumerator does not know them). */
  datatype PortDetails = PortDetails(name: string, isUSB: bool, vid: string, pid: string)

  /** A parsed vendor/product ID pair, the Go `[2]uint16`. */
  datatype UsbId = UsbId(vid: U16, pid: U16)

  /** The resolver either as the code is written, or with its three defects
      corrected: the interface-kind filter of line 247, the product-ID error
      of line 260 quoting the vendor ID, and the repeated append of one port
      for several equal preferred pairs at line 280. */
  datatype Policy = AsWritten | Corrected

  datatype IdField = VendorId | ProductId

  datatype ResolveError =
    | EnumerationFailed
    | BadUsbId(field: IdField, quoted: string)
    | FallbackFailed
    | NoPort
    | Ambiguous(available: seq<string>)
    | NotFound(requested: seq<string>, available: seq<string>)

  /** The text of each error. Errors passed through from the enumerator or
      the fallback listing carry Go's own message, which is not modelled.
      An ID error quotes the offending text; the ambiguity error quotes the
      whole pool and the not-found error both the request and the pool. */
  function Message(e: ResolveError): (m: string)
    ensures e.BadUsbId? ==> IsInfix(e.quoted, m)
    ensures e.Ambiguous? ==> IsInfix(Join(e.available, ", "), m)
    ensures e.NotFound? ==> IsInfix(Join(e.requested, ","), m) && IsInfix(Join(e.available, ", "), m)
  {
    match e
    case EnumerationFailed => "could not enumerate serial ports"
    case BadUsbId(VendorId, q) => Quote("could not parse USB vendor ID \"", q, "\"")
    case BadUsbId(ProductId, q) => Quote("could not parse USB product ID \"", q, "\"")
    case FallbackFailed => "could not list fallback serial ports"
    case NoPort => "no serial ports available"
    case Ambiguous(ps) =>
      Quote("multiple serial ports available - use -port flag, available ports are ", Join(ps, ", "), "")
    case NotFound(req, ps) =>
      var requested, available := Join(req, ","), Join(ps, ", ");
      var head, mid := "port you specified '", "' does not exist, available ports are ";
      var m := head + requested + mid + available;
      InfixOfSelf(requested);
      InfixInContext(requested, requested, head, mid + available);
      assert head + requested + (mid + available) == m;
      InfixOfSelf(available);
      InfixInContext(available, available, head + requested + mid, "");
      assert head + requested + mid + available + "" == m;
      m
  }

  /** `x` between `before` and `after`. */
  function Quote(before: string, x: string, after: string): (s: string)
    ensures s == before + x + after && IsInfix(x, s)
  {
    InfixOfSelf(x);
    InfixInContext(x, x, before, after);
    before + x + after
  }

  // ---------------------------------------------------------------------
  // Fingerprints (lines 244-263)
  // ---------------------------------------------------------------------

  /** Whether the fingerprint loop skips an entry split at ':' into `parts`.
      As written the test is `len != 3 || (kind != "acm" && kind == "usb")`,
      which skips exactly the malformed and the `usb` entries; corrected, it
      skips the malformed entries and every kind other than `usb` and `acm`. */
  predicate Skipped(policy: Policy, parts: seq<string>)
    ensures |parts| != 3 ==> Skipped(policy, parts)
    ensures |parts| == 3 && policy == AsWritten ==> (Skipped(policy, parts) <==> parts[0] == "usb")
    ensures |parts| == 3 && policy == Corrected ==> (Skipped(policy, parts) <==> parts[0] != "usb" && parts[0] != "acm")
  {
    match policy
    case AsWritten => |parts| != 3 || (parts[0] != "acm" && parts[0] == "usb")
    case Corrected => |parts| != 3 || (parts[0] != "acm" && parts[0] != "usb")
  }

  /** How the fingerprint loop reads one `serial-port` entry. */
  datatype Reading = Ignored | Parsed(id: UsbId) | Malformed(error: ResolveError)

  /** One iteration of lines 245-263: a skipped entry is ignored; otherwise
      the vendor ID and then the product ID must parse. As written the
      product-ID error quotes the vendor-ID text (line 260); corrected, it
      quotes the product-ID text. */
  function ReadFingerprint(policy: Policy, fp: string): Reading
  {
    var parts := Split(fp, ':');
    if Skipped(policy, parts) then Ignored
    else match (ParseUint16(parts[1]), ParseUint16(parts[2]))
      case (None, _) => Malformed(BadUsbId(VendorId, parts[1]))
      case (Some(_), None) => Malformed(BadUsbId(ProductId, if policy == AsWritten then parts[1] else parts[2]))
      case (Some(v), Some(d)) => Parsed(UsbId(v, d))
  }

  /** An entry is read at all only when it has exactly two colons, and a
      parsed entry's pair is the value of its second and third fields. */
  lemma ReadFingerprintFields(policy: Policy, fp: string)
    ensures ReadFingerprint(policy, fp).Ignored? <==> Skipped(policy, Split(fp, ':'))
    ensures !ReadFingerprint(policy, fp).Ignored? ==> multiset(fp)[':'] == 2
    ensures ReadFingerprint(policy, fp).Parsed? ==>
      ParseUint16(Split(fp, ':')[1]) == Some(ReadFingerprint(policy, fp).id.vid) &&
      ParseUint16(Split(fp, ':')[2]) == Some(ReadFingerprint(policy, fp).id.pid)
  {
    SplitCountsSeparators(fp, ':');
  }

  /** An error quotes a field of the entry. As written the product-ID error
      quotes the vendor-ID text, which did parse; corrected, the quoted text
      is always one that failed to parse. */
  lemma ReadFingerprintQuotes(policy: Policy, fp: string)
    ensures ReadFingerprint(policy, fp).Malformed? ==>
      ReadFingerprint(policy, fp).error.BadUsbId? && IsInfix(ReadFingerprint(policy, fp).error.quoted, fp)
    ensures ReadFingerprint(policy, fp).Malformed? && policy == Corrected ==>
      ParseUint16(ReadFingerprint(policy, fp).error.quoted).None?
  {
    var parts := Split(fp, ':');
    if !Skipped(policy, parts) {
      JoinContainsPart(parts, ":", 1);
      JoinContainsPart(parts, ":", 2);
    }
  }

  /** The preferred ID pairs of a target, in fingerprint order, or the error
      of the first entry that is read as malformed, whether or not any
      device would ever have matched it. */
  function ParsePreferred(policy: Policy, fps: seq<string>): (r: Result<seq<UsbId>, ResolveError>)
    ensures r.Ok? <==> forall k :: 0 <= k < |fps| ==> !ReadFingerprint(policy, fps[k]).Malformed?
    ensures r.Err? ==> exists k :: (0 <= k < |fps| && ReadFingerprint(policy, fps[k]) == Malformed(r.error)
      && forall j :: 0 <= j < k ==> !ReadFingerprint(policy, fps[j]).Malformed?)
  {
    if |fps| == 0 then Ok([])
    else
      var rest := ParsePreferred(policy, fps[1..]);
      assert forall k :: 1 <= k < |fps| ==> fps[k] == fps[1..][k - 1];
      match ReadFingerprint(policy, fps[0])
      case Malformed(e) => Err(e)
      case Ignored => ShiftedError(policy, fps, rest); rest
      case Parsed(id) =>
        ShiftedError(policy, fps, rest);
        if rest.Err? then rest else Ok([id] + rest.value)
  }

  /** The first malformed entry of `fps[1..]` is the first of `fps` when
      `fps[0]` is not malformed. */
  lemma ShiftedError(policy: Policy, fps: seq<string>, rest: Result<seq<UsbId>, ResolveError>)
    requires |fps| > 0 && !ReadFingerprint(policy, fps[0]).Malformed?
    requires rest == ParsePreferred(policy, fps[1..])
    ensures rest.Err? ==> exists k :: (0 <= k < |fps| && ReadFingerprint(policy, fps[k]) == Malformed(rest.error)
      && forall j :: 0 <= j < k ==> !ReadFingerprint(policy, fps[j]).Malformed?)
  {
    if rest.Err? {
      var k :| 0 <= k < |fps[1..]| && ReadFingerprint(policy, fps[1..][k]) == Malformed(rest.error)
        && forall j :: 0 <= j < k ==> !ReadFingerprint(policy, fps[1..][j]).Malformed?;
      assert fps[k + 1] == fps[1..][k];
      assert forall j :: 1 <= j < k + 1 ==> fps[j] == fps[1..][j - 1];
    }
  }

  /** The preferred pairs are exactly the IDs read from the fingerprints:
      each parsed pair comes from an entry, and each entry's pair is there. */
  lemma {:induction false} PreferredIdsAreFingerprintIds(policy: Policy, fps: seq<string>)
    requires ParsePreferred(policy, fps).Ok?
    ensures forall id :: id in ParsePreferred(policy, fps).value <==>
      exists k :: 0 <= k < |fps| && ReadFingerprint(policy, fps[k]) == Parsed(id)
    decreases |fps|
  {
    if |fps| > 0 {
      PreferredIdsAreFingerprintIds(policy, fps[1..]);
      assert forall k :: 1 <= k < |fps| ==> fps[k] == fps[1..][k - 1];
      var ids := ParsePreferred(policy, fps).value;
      forall id | id in ids
        ensures exists k :: 0 <= k < |fps| && ReadFingerprint(policy, fps[k]) == Parsed(id)
      {
        if id !in ParsePreferred(policy, fps[1..]).value {
          assert ReadFingerprint(policy, fps[0]) == Parsed(id);
        } else {
          var k :| 0 <= k < |fps[1..]| && ReadFingerprint(policy, fps[1..][k]) == Parsed(id);
          assert fps[k + 1] == fps[1..][k];
        }
      }
    }
  }

  /** How many entries of `fps` are read as the pair `id`. */
  function ReadCount(policy: Policy, fps: seq<string>, id: UsbId): nat
  {
    if |fps| == 0 then 0
    else (if ReadFingerprint(policy, fps[0]) == Parsed(id) then 1 else 0) + ReadCount(policy, fps[1..], id)
  }

  /** Each pair occurs among the preferred pairs exactly as often as
      entries are read as it, so a repeated entry gives a repeated pair. */
  lemma {:induction false} PreferredIdCounts(policy: Policy, fps: seq<string>, id: UsbId)
    requires ParsePreferred(policy, fps).Ok?
    ensures multiset(ParsePreferred(policy, fps).value)[id] == ReadCount(policy, fps, id)
    decreases |fps|
  {
    if |fps| > 0 {
      var rest := ParsePreferred(policy, fps[1..]);
      assert rest.Ok?;
      PreferredIdCounts(policy, fps[1..], id);
      match ReadFingerprint(policy, fps[0])
      case Ignored =>
      case Parsed(x) =>
        assert ParsePreferred(policy, fps).value == [x] + rest.value;
        assert multiset([x] + rest.value) == multiset([x]) + multiset(rest.value);
    }
  }

  /** Reading one more entry in front of an already read list. */
  function Prepend(reading: Reading, rest: Result<seq<UsbId>, ResolveError>): Result<seq<UsbId>, ResolveError>
  {
    match reading
    case Malformed(e) => Err(e)
    case Ignored => rest
    case Parsed(id) => if rest.Err? then rest else Ok([id] + rest.value)
  }

  lemma ParsePreferredStep(policy: Policy, fps: seq<string>)
    requires |fps| > 0
    ensures ParsePreferred(policy, fps) == Prepend(ReadFingerprint(policy, fps[0]), ParsePreferred(policy, fps[1..]))
  {
  }

  /** The readings of a list of fingerprints, entry by entry. */
  function Readings(policy: Policy, fps: seq<string>): seq<Reading>
  {
    seq(|fps|, k requires 0 <= k < |fps| => ReadFingerprint(policy, fps[k]))
  }

  /** Combines readings from the front, as the fingerprint loop does. */
  function ReadAll(rs: seq<Reading>): Result<seq<UsbId>, ResolveError>
  {
    if |rs| == 0 then Ok([]) else Prepend(rs[0], ReadAll(rs[1..]))
  }

  lemma {:induction false} ParsePreferredReadsAll(policy: Policy, fps: seq<string>)
    ensures ParsePreferred(policy, fps) == ReadAll(Readings(policy, fps))
    decreases |fps|
  {
    if |fps| > 0 {
      ParsePreferredReadsAll(policy, fps[1..]);
      ParsePreferredStep(policy, fps);
      assert Readings(policy, fps)[1..] == Readings(policy, fps[1..]);
    }
  }

  lemma ReadingsConcat(policy: Policy, a: seq<string>, b: seq<string>)
    ensures Readings(policy, a + b) == Readings(policy, a) + Readings(policy, b)
  {
    var l, r := Readings(policy, a + b), Readings(policy, a) + Readings(policy, b);
    assert |l| == |r|;
    forall k | 0 <= k < |l|
      ensures l[k] == r[k]
    {
      if k < |a| {
        assert (a + b)[k] == a[k];
      } else {
        assert (a + b)[k] == b[k - |a|];
      }
    }
  }

  lemma {:induction false} ReadAllConcat(xs: seq<Reading>, ys: seq<Reading>)
    ensures ReadAll(xs).Err? ==> ReadAll(xs + ys) == ReadAll(xs)
    ensures ReadAll(xs).Ok? && ReadAll(ys).Err? ==> ReadAll(xs + ys) == ReadAll(ys)
    ensures ReadAll(xs).Ok? && ReadAll(ys).Ok? ==> ReadAll(xs + ys) == Ok(ReadAll(xs).value + ReadAll(ys).value)
    decreases |xs|
  {
    if |xs| == 0 {
      assert xs + ys == ys;
      if ReadAll(ys).Ok? {
        assert [] + ReadAll(ys).value == ReadAll(ys).value;
      }
    } else {
      ReadAllConcat(xs[1..], ys);
      assert (xs + ys)[0] == xs[0];
      assert (xs + ys)[1..] == xs[1..] + ys;
      var tail := ReadAll(xs[1..]);
      if xs[0].Parsed? && tail.Ok? && ReadAll(ys).Ok? {
        assert [xs[0].id] + (tail.value + ReadAll(ys).value) == ([xs[0].id] + tail.value) + ReadAll(ys).value;
      }
    }
  }

  /** Reading a list of fingerprints is reading its two halves in turn: the
      first half's error wins, then the second half's, and otherwise the
      pairs of both halves are kept in order. */
  lemma ParsePreferredConcat(policy: Policy, a: seq<string>, b: seq<string>)
    ensures ParsePreferred(policy, a).Err? ==> ParsePreferred(policy, a + b) == ParsePreferred(policy, a)
    ensures ParsePreferred(policy, a).Ok? && ParsePreferred(policy, b).Err? ==>
      ParsePreferred(policy, a + b) == ParsePreferred(policy, b)
    ensures ParsePreferred(policy, a).Ok? && ParsePreferred(policy, b).Ok? ==>
      ParsePreferred(policy, a + b) == Ok(ParsePreferred(policy, a).value + ParsePreferred(policy, b).value)
  {
    ParsePreferredReadsAll(policy, a);
    ParsePreferredReadsAll(policy, b);
    ParsePreferredReadsAll(policy, a + b);
    ReadingsConcat(policy, a, b);
    ReadAllConcat(Readings(policy, a), Readings(policy, b));
  }

  // ---------------------------------------------------------------------
  // Primary / secondary partition (lines 265-290)
  // ---------------------------------------------------------------------

  /** The IDs of an enumerated port, when both are present and parse. The
      emptiness test of line 271 adds nothing to the parse, which rejects
      the empty string anyway. */
  function PortId(p: PortDetails): (r: Option<UsbId>)
    ensures r.Some? <==> ParseUint16(p.vid).Some? && ParseUint16(p.pid).Some?
    ensures r.Some? ==> r.value == UsbId(ParseUint16(p.vid).value, ParseUint16(p.pid).value)
  {
    if p.vid != "" && p.pid != "" then
      match (ParseUint16(p.vid), ParseUint16(p.pid))
      case (Some(v), Some(d)) => Some(UsbId(v, d))
      case _ => None
    else None
  }

  /** A USB port whose IDs equal some preferred pair. */
  predicate IsPreferred(p: PortDetails, ids: seq<UsbId>)
  {
    p.isUSB && PortId(p).Some? && PortId(p).value in ids
  }

  /** The inner loop of lines 276-282 as written: its `continue` only moves
      on to the next pair, so `name` is appended once per equal pair. */
  function AppendPerMatch(name: string, id: UsbId, ids: seq<UsbId>): (r: seq<string>)
    ensures |r| == multiset(ids)[id]
    ensures forall k :: 0 <= k < |r| ==> r[k] == name
  {
    if |ids| == 0 then []
    else
      assert ids == [ids[0]] + ids[1..];
      (if ids[0] == id then [name] else []) + AppendPerMatch(name, id, ids[1..])
  }

  /** What one enumerated port adds to the primary list. */
  function PrimaryEntries(policy: Policy, p: PortDetails, ids: seq<UsbId>): seq<string>
  {
    if !IsPreferred(p, ids) then []
    else match policy
      case AsWritten => AppendPerMatch(p.name, PortId(p).value, ids)
      case Corrected => [p.name]
  }

  /** What one enumerated port adds to the secondary list. */
  function SecondaryEntries(p: PortDetails, ids: seq<UsbId>): seq<string>
  {
    if p.isUSB && !IsPreferred(p, ids) then [p.name] else []
  }

  /** The two lists the loop over enumerated ports builds. */
  datatype Split2 = Split2(primary: seq<string>, secondary: seq<string>)

  /** The loop of lines 267-290: each enumerated port, in order, appends
      its primary and its secondary entries. */
  function Partition(policy: Policy, ports: seq<PortDetails>, ids: seq<UsbId>): Split2
    decreases |ports|
  {
    if |ports| == 0 then Split2([], [])
    else
      var rest := Partition(policy, ports[..|ports| - 1], ids);
      var p := ports[|ports| - 1];
      Split2(rest.primary + PrimaryEntries(policy, p, ids), rest.secondary + SecondaryEntries(p, ids))
  }

  /** The secondary list has at most one entry per port, and so, corrected,
      do both lists together; without preferred pairs the primary list is
      empty. */
  lemma {:induction false} PartitionSizes(policy: Policy, ports: seq<PortDetails>, ids: seq<UsbId>)
    ensures |Partition(policy, ports, ids).secondary| <= |ports|
    ensures policy == Corrected ==> |Partition(policy, ports, ids).primary| + |Partition(policy, ports, ids).secondary| <= |ports|
    ensures |ids| == 0 ==> Partition(policy, ports, ids).primary == []
    decreases |ports|
  {
    if |ports| > 0 {
      PartitionSizes(policy, ports[..|ports| - 1], ids);
    }
  }

  /** Non-USB ports appear in neither list; a preferred USB port is in the
      primary list and every other USB port in the secondary list, and
      nothing else is in either. */
  lemma PartitionMembers(policy: Policy, ports: seq<PortDetails>, ids: seq<UsbId>)
    ensures var r := Partition(policy, ports, ids);
      forall n :: n in r.primary ==> exists i :: 0 <= i < |ports| && IsPreferred(ports[i], ids) && ports[i].name == n
    ensures var r := Partition(policy, ports, ids);
      forall n :: n in r.secondary ==> exists i :: 0 <= i < |ports| && ports[i].isUSB && !IsPreferred(ports[i], ids) && ports[i].name == n
    ensures var r := Partition(policy, ports, ids);
      forall i :: 0 <= i < |ports| && IsPreferred(ports[i], ids) ==> ports[i].name in r.primary
    ensures var r := Partition(policy, ports, ids);
      forall i :: 0 <= i < |ports| && ports[i].isUSB && !IsPreferred(ports[i], ids) ==> ports[i].name in r.secondary
  {
    PrimaryFromPreferred(policy, ports, ids);
    PreferredInPrimary(policy, ports, ids);
    SecondaryMembers(policy, ports, ids);
  }

  /** One port's primary entries are its own name, present iff it is preferred. */
  lemma PrimaryEntriesOfPort(policy: Policy, p: PortDetails, ids: seq<UsbId>)
    ensures forall n :: n in PrimaryEntries(policy, p, ids) ==> IsPreferred(p, ids) && n == p.name
    ensures IsPreferred(p, ids) ==> p.name in PrimaryEntries(policy, p, ids)
  {
    if IsPreferred(p, ids) && policy == AsWritten {
      assert multiset(ids)[PortId(p).value] > 0;
      assert PrimaryEntries(policy, p, ids)[0] == p.name;
    }
  }

  lemma {:induction false} PrimaryFromPreferred(policy: Policy, ports: seq<PortDetails>, ids: seq<UsbId>)
    ensures forall n :: n in Partition(policy, ports, ids).primary ==> exists i :: 0 <= i < |ports| && IsPreferred(ports[i], ids) && ports[i].name == n
    decreases |ports|
  {
    if |ports| > 0 {
      var init := ports[..|ports| - 1];
      var p := ports[|ports| - 1];
      PrimaryFromPreferred(policy, init, ids);
      PrimaryEntriesOfPort(policy, p, ids);
      var entries := PrimaryEntries(policy, p, ids);
      var before := Partition(policy, init, ids).primary;
      assert Partition(policy, ports, ids).primary == before + entries;
      forall n | n in before + entries
        ensures exists i :: 0 <= i < |ports| && IsPreferred(ports[i], ids) && ports[i].name == n
      {
        if n in before {
          var i :| 0 <= i < |init| && IsPreferred(init[i], ids) && init[i].name == n;
          assert ports[i] == init[i];
        } else {
          assert ports[|ports| - 1] == p;
        }
      }
    }
  }

  lemma {:induction false} PreferredInPrimary(policy: Policy, ports: seq<PortDetails>, ids: seq<UsbId>)
    ensures var r := Partition(policy, ports, ids);
      forall i :: 0 <= i < |ports| && IsPreferred(ports[i], ids) ==> ports[i].name in r.primary
    decreases |ports|
  {
    if |ports| > 0 {
      var init := ports[..|ports| - 1];
      var p := ports[|ports| - 1];
      PreferredInPrimary(policy, init, ids);
      PrimaryEntriesOfPort(policy, p, ids);
      var entries := PrimaryEntries(policy, p, ids);
      var before := Partition(policy, init, ids).primary;
      assert Partition(policy, ports, ids).primary == before + entries;
      forall i | 0 <= i < |ports| && IsPreferred(ports[i], ids)
        ensures ports[i].name in before + entries
      {
        if i < |init| {
          assert ports[i] == init[i];
        }
      }
    }
  }

  lemma {:induction false} SecondaryMembers(policy: Policy, ports: seq<PortDetails>, ids: seq<UsbId>)
    ensures forall n :: n in Partition(policy, ports, ids).secondary ==>
      exists i :: 0 <= i < |ports| && ports[i].isUSB && !IsPreferred(ports[i], ids) && ports[i].name == n
    ensures forall i :: 0 <= i < |ports| && ports[i].isUSB && !IsPreferred(ports[i], ids) ==>
      ports[i].name in Partition(policy, ports, ids).secondary
    decreases |ports|
  {
    if |ports| > 0 {
      var init := ports[..|ports| - 1];
      var p := ports[|ports| - 1];
      SecondaryMembers(policy, init, ids);
      assert forall i :: 0 <= i < |init| ==> init[i] == ports[i];
      assert Partition(policy, ports, ids).secondary == Partition(policy, init, ids).secondary + SecondaryEntries(p, ids);
    }
  }

  // ---------------------------------------------------------------------
  // Selection policy and fallback (lines 291-328)
  // ---------------------------------------------------------------------

  /** The outcome of looking at the devices before the `-port` list is
      consulted: a single preferred port, or a non-empty pool to pick from. */
  datatype Shortlist = Preferred(port: string) | Pool(names: seq<string>)

  /** Lines 233-328: enumerate, parse the fingerprints, partition, apply the
      selection policy and fall back to the platform listing when the pool
      is empty. */
  function MakeShortlist(policy: Policy, fps: seq<string>, enumerated: Option<seq<PortDetails>>,
                         fallback: Option<seq<string>>): (r: Result<Shortlist, ResolveError>)
    ensures enumerated.None? <==> r == Err(EnumerationFailed)
    ensures enumerated.Some? ==> (ParsePreferred(policy, fps).Err? <==> r.Err? && r.error.BadUsbId?)
    ensures r.Ok? && r.value.Pool? ==> |r.value.names| > 0
  {
    match enumerated
    case None => Err(EnumerationFailed)
    case Some(ports) =>
      match ParsePreferred(policy, fps)
      case Err(e) => Err(e)
      case Ok(ids) =>
        var primary := Partition(policy, ports, ids).primary;
        var secondary := Partition(policy, ports, ids).secondary;
        if |primary| == 1 then Ok(Preferred(primary[0]))
        else
          var pool := if |primary| > 1 then primary else secondary;
          if |pool| > 0 then Ok(Pool(pool))
          else match fallback
            case None => Err(FallbackFailed)
            case Some(names) => if |names| == 0 then Err(NoPort) else Ok(Pool(names))
  }

  /** A single preferred port is an enumerated port carrying a preferred ID. */
  lemma PreferredShortlistMember(policy: Policy, fps: seq<string>, ports: seq<PortDetails>, fallback: Option<seq<string>>)
    ensures var r := MakeShortlist(policy, fps, Some(ports), fallback);
      r.Ok? && r.value.Preferred? ==>
        exists i :: 0 <= i < |ports| && IsPreferred(ports[i], ParsePreferred(policy, fps).value) && ports[i].name == r.value.port
  {
    if ParsePreferred(policy, fps).Ok? {
      var ids := ParsePreferred(policy, fps).value;
      var primary := Partition(policy, ports, ids).primary;
      if |primary| == 1 {
        PrimaryFromPreferred(policy, ports, ids);
        assert primary[0] in primary;
      }
    }
  }

  /** A pool holds enumerated USB ports, or is the fallback listing when no
      enumerated port is USB. */
  lemma PoolShortlistMembers(policy: Policy, fps: seq<string>, ports: seq<PortDetails>, fallback: Option<seq<string>>)
    ensures var r := MakeShortlist(policy, fps, Some(ports), fallback);
      r.Ok? && r.value.Pool? ==>
        (forall n :: n in r.value.names ==> exists i :: 0 <= i < |ports| && ports[i].isUSB && ports[i].name == n)
        || ((forall i :: 0 <= i < |ports| ==> !ports[i].isUSB) && fallback == Some(r.value.names))
  {
    if ParsePreferred(policy, fps).Ok? {
      var ids := ParsePreferred(policy, fps).value;
      var split := Partition(policy, ports, ids);
      if |split.primary| > 1 {
        PrimaryFromPreferred(policy, ports, ids);
        assert MakeShortlist(policy, fps, Some(ports), fallback) == Ok(Pool(split.primary));
        forall n | n in split.primary
          ensures exists i :: 0 <= i < |ports| && ports[i].isUSB && ports[i].name == n
        {
          var i :| 0 <= i < |ports| && IsPreferred(ports[i], ids) && ports[i].name == n;
        }
      } else if |split.primary| == 0 && |split.secondary| > 0 {
        SecondaryMembers(policy, ports, ids);
        assert MakeShortlist(policy, fps, Some(ports), fallback) == Ok(Pool(split.secondary));
        forall n | n in split.secondary
          ensures exists i :: 0 <= i < |ports| && ports[i].isUSB && ports[i].name == n
        {
          var i :| 0 <= i < |ports| && ports[i].isUSB && !IsPreferred(ports[i], ids) && ports[i].name == n;
        }
      } else if |split.primary| == 0 {
        EmptyPartitionHasNoUsb(policy, ports, ids);
      }
    }
  }

  /** Every USB port lands in one of the two lists. */
  lemma {:induction false} EmptyPartitionHasNoUsb(policy: Policy, ports: seq<PortDetails>, ids: seq<UsbId>)
    ensures Partition(policy, ports, ids) == Split2([], []) ==> forall i :: 0 <= i < |ports| ==> !ports[i].isUSB
    decreases |ports|
  {
    if |ports| > 0 {
      var init := ports[..|ports| - 1];
      var p := ports[|ports| - 1];
      EmptyPartitionHasNoUsb(policy, init, ids);
      PrimaryEntriesOfPort(policy, p, ids);
      var rest := Partition(policy, init, ids);
      assert Partition(policy, ports, ids) ==
        Split2(rest.primary + PrimaryEntries(policy, p, ids), rest.secondary + SecondaryEntries(p, ids));
      if Partition(policy, ports, ids) == Split2([], []) {
        assert |rest.primary| + |PrimaryEntries(policy, p, ids)| == 0;
        assert |rest.secondary| + |SecondaryEntries(p, ids)| == 0;
        assert rest == Split2([], []);
        assert forall i :: 0 <= i < |init| ==> init[i] == ports[i];
      }
    }
  }

  // ---------------------------------------------------------------------
  // Intersection with the -port list (lines 330-346)
  // ---------------------------------------------------------------------

  /** The first requested name, in request order, that is in the pool. */
  function FirstIn(cands: seq<string>, pool: seq<string>): (r: Option<string>)
    ensures r.None? <==> forall k :: 0 <= k < |cands| ==> cands[k] !in pool
    ensures r.Some? ==> exists k :: (0 <= k < |cands| && cands[k] == r.value && r.value in pool
      && forall j :: 0 <= j < k ==> cands[j] !in pool)
  {
    if |cands| == 0 then None
    else if cands[0] in pool then Some(cands[0])
    else
      var r := FirstIn(cands[1..], pool);
      assert forall k :: 1 <= k < |cands| ==> cands[k] == cands[1..][k - 1];
      if r.Some? then
        var k :| 0 <= k < |cands[1..]| && cands[1..][k] == r.value && r.value in pool
          && forall j :: 0 <= j < k ==> cands[1..][j] !in pool;
        assert cands[k + 1] == cands[1..][k];
        r
      else r
  }

  /** Picks from a non-empty pool: without a `-port` list only a one-entry
      pool is accepted; with one, the first requested name in the pool. */
  function Select(cands: seq<string>, pool: seq<string>): (r: Result<string, ResolveError>)
    requires |pool| > 0
    ensures r.Ok? ==> r.value in pool
    ensures |cands| == 0 ==> (r.Ok? <==> |pool| == 1)
    ensures |cands| == 0 && r.Err? ==> r.error == Ambiguous(pool)
    ensures |cands| > 0 ==> (r.Ok? <==> exists k :: 0 <= k < |cands| && cands[k] in pool)
    ensures |cands| > 0 && r.Ok? ==> exists k :: (0 <= k < |cands| && cands[k] == r.value
      && forall j :: 0 <= j < k ==> cands[j] !in pool)
    ensures |cands| > 0 && r.Err? ==> r.error == NotFound(cands, pool)
  {
    if |cands| == 0 then
      if |pool| == 1 then Ok(pool[0]) else Err(Ambiguous(pool))
    else
      match FirstIn(cands, pool)
      case Some(p) => Ok(p)
      case None => Err(NotFound(cands, pool))
  }

  // ---------------------------------------------------------------------
  // The resolver
  // ---------------------------------------------------------------------

  /** `getDefaultPort(portFlag, usbInterfaces)` with the enumerator's result
      and the fallback listing supplied as data. A `-port` value naming
      exactly one port is returned unchecked; any other successful result is
      the name of an enumerated USB port, or an entry of the fallback
      listing when the enumerator reported no USB port at all. */
  function Resolve(policy: Policy, portFlag: string, fps: seq<string>,
                   enumerated: Option<seq<PortDetails>>, fallback: Option<seq<string>>): (r: Result<string, ResolveError>)
    ensures r.Ok? && |Fields(portFlag)| != 1 ==>
      enumerated.Some? &&
      ((exists i :: 0 <= i < |enumerated.value| && enumerated.value[i].isUSB && enumerated.value[i].name == r.value)
       || ((forall i :: 0 <= i < |enumerated.value| ==> !enumerated.value[i].isUSB)
           && fallback.Some? && r.value in fallback.value))
  {
    var cands := Fields(portFlag);
    if |cands| == 1 then Ok(cands[0])
    else
      match MakeShortlist(policy, fps, enumerated, fallback)
      case Err(e) => Err(e)
      case Ok(Preferred(p)) =>
        PreferredShortlistMember(policy, fps, enumerated.value, fallback);
        Ok(p)
      case Ok(Pool(names)) =>
        PoolShortlistMembers(policy, fps, enumerated.value, fallback);
        var r := Select(cands, names);
        assert r.Ok? ==> r.value in names;
        r
  }
}
