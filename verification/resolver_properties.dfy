/** Properties of the port resolver that relate several calls or hold for
    every input: the `-port` shortcut, the order-preserving partition, the
    selection policy, the fallback rule and the diagnostics. Each holds for
    the resolver as written and for the corrected one alike, unless the
    lemma says otherwise. */
module ResolverProperties {
  import opened Wrappers
  import opened Text
  import opened PortResolver

  /** A `-port` value in which `FieldsFunc` finds exactly one name (say
      "/dev/ttyACM0", or ",/dev/ttyACM0,,") returns that name verbatim,
      without looking at fingerprints, devices or the fallback. */
  lemma ExplicitPortTrusted(policy: Policy, portFlag: string, fps: seq<string>,
                            enumerated: Option<seq<PortDetails>>, fallback: Option<seq<string>>)
    requires |Fields(portFlag)| == 1
    ensures Resolve(policy, portFlag, fps, enumerated, fallback) == Ok(Fields(portFlag)[0])
  {
  }

  /** In particular a plain name, non-empty and without a comma, is
      returned as itself. */
  lemma SinglePortNameTrusted(policy: Policy, name: string, fps: seq<string>,
                              enumerated: Option<seq<PortDetails>>, fallback: Option<seq<string>>)
    requires name != "" && ',' !in name
    ensures Resolve(policy, name, fps, enumerated, fallback) == Ok(name)
  {
    FieldsOfSingleName(name);
    ExplicitPortTrusted(policy, name, fps, enumerated, fallback);
  }

  /** The partition of a concatenated enumeration is the concatenation of
      the partitions: both lists keep enumeration order, and what a port
      contributes depends on that port alone. */
  lemma {:induction false} PartitionConcat(policy: Policy, a: seq<PortDetails>, b: seq<PortDetails>, ids: seq<UsbId>)
    ensures Partition(policy, a + b, ids) ==
      Split2(Partition(policy, a, ids).primary + Partition(policy, b, ids).primary,
             Partition(policy, a, ids).secondary + Partition(policy, b, ids).secondary)
    decreases |b|
  {
    if |b| == 0 {
      assert a + b == a;
    } else {
      var b', last := b[..|b| - 1], b[|b| - 1];
      assert b == b' + [last];
      assert a + b == (a + b') + [last];
      var x, y, z := Partition(policy, a, ids).primary, Partition(policy, b', ids).primary, PrimaryEntries(policy, last, ids);
      var u, v, w := Partition(policy, a, ids).secondary, Partition(policy, b', ids).secondary, SecondaryEntries(last, ids);
      calc {
        Partition(policy, a + b, ids);
        { PartitionSnoc(policy, a + b', last, ids); }
        Split2(Partition(policy, a + b', ids).primary + z, Partition(policy, a + b', ids).secondary + w);
        { PartitionConcat(policy, a, b', ids); }
        Split2((x + y) + z, (u + v) + w);
        { assert (x + y) + z == x + (y + z); assert (u + v) + w == u + (v + w); }
        Split2(x + (y + z), u + (v + w));
        { PartitionSnoc(policy, b', last, ids); }
        Split2(x + Partition(policy, b, ids).primary, u + Partition(policy, b, ids).secondary);
      }
    }
  }

  /** Appending a port appends its own contribution. */
  lemma PartitionSnoc(policy: Policy, ports: seq<PortDetails>, p: PortDetails, ids: seq<UsbId>)
    ensures Partition(policy, ports + [p], ids) ==
      Split2(Partition(policy, ports, ids).primary + PrimaryEntries(policy, p, ids),
             Partition(policy, ports, ids).secondary + SecondaryEntries(p, ids))
  {
    assert (ports + [p])[..|ports|] == ports;
  }

  /** Partitioning a single port gives exactly its own contribution. */
  lemma PartitionOfOne(policy: Policy, p: PortDetails, ids: seq<UsbId>)
    ensures Partition(policy, [p], ids) == Split2(PrimaryEntries(policy, p, ids), SecondaryEntries(p, ids))
  {
    assert [p][..0] == [];
  }

  /** Without a preferred port the primary list is empty. */
  lemma {:induction false} NoPreferredNoPrimary(policy: Policy, ports: seq<PortDetails>, ids: seq<UsbId>)
    requires forall i :: 0 <= i < |ports| ==> !IsPreferred(ports[i], ids)
    ensures Partition(policy, ports, ids).primary == []
    decreases |ports|
  {
    if |ports| > 0 {
      NoPreferredNoPrimary(policy, ports[..|ports| - 1], ids);
    }
  }

  /** Without a USB port both lists are empty. */
  lemma {:induction false} NoUsbEmptyPartition(policy: Policy, ports: seq<PortDetails>, ids: seq<UsbId>)
    requires forall i :: 0 <= i < |ports| ==> !ports[i].isUSB
    ensures Partition(policy, ports, ids) == Split2([], [])
    decreases |ports|
  {
    if |ports| > 0 {
      NoUsbEmptyPartition(policy, ports[..|ports| - 1], ids);
    }
  }

  /** With a single preferred port the primary list holds its name once per
      equal preferred pair as written, and exactly once corrected. */
  lemma {:induction false} PrimaryOfSinglePreferred(policy: Policy, ports: seq<PortDetails>, ids: seq<UsbId>, i: nat)
    requires i < |ports| && IsPreferred(ports[i], ids)
    requires forall j :: 0 <= j < |ports| && j != i ==> !IsPreferred(ports[j], ids)
    ensures Partition(policy, ports, ids).primary == PrimaryEntries(policy, ports[i], ids)
    ensures policy == Corrected ==> Partition(policy, ports, ids).primary == [ports[i].name]
    ensures policy == AsWritten ==> |Partition(policy, ports, ids).primary| == multiset(ids)[PortId(ports[i]).value]
    decreases |ports|
  {
    var init := ports[..|ports| - 1];
    var p := ports[|ports| - 1];
    assert forall j :: 0 <= j < |init| ==> init[j] == ports[j];
    var entries := PrimaryEntries(policy, ports[i], ids);
    if i == |ports| - 1 {
      NoPreferredNoPrimary(policy, init, ids);
      assert Partition(policy, ports, ids).primary == [] + entries;
    } else {
      PrimaryOfSinglePreferred(policy, init, ids, i);
      assert PrimaryEntries(policy, p, ids) == [];
      assert Partition(policy, ports, ids).primary == entries + [];
    }
  }

  /** The evidently intended selection (the comment at lines 292-294): when
      exactly one enumerated port carries a preferred ID, it is chosen, however
      many other serial ports are attached and whatever list `-port` gives
      (unless it names exactly one port). As written this needs exactly one
      fingerprint entry to be read as the port's ID; the corrected resolver
      needs nothing. */
  lemma SingleMatchingBoardSelected(policy: Policy, portFlag: string, fps: seq<string>,
                                    ports: seq<PortDetails>, fallback: Option<seq<string>>, i: nat)
    requires |Fields(portFlag)| != 1
    requires ParsePreferred(policy, fps).Ok?
    requires i < |ports| && IsPreferred(ports[i], ParsePreferred(policy, fps).value)
    requires forall j :: 0 <= j < |ports| && j != i ==> !IsPreferred(ports[j], ParsePreferred(policy, fps).value)
    requires policy == Corrected || ReadCount(policy, fps, PortId(ports[i]).value) == 1
    ensures Resolve(policy, portFlag, fps, Some(ports), fallback) == Ok(ports[i].name)
  {
    var ids := ParsePreferred(policy, fps).value;
    PreferredIdCounts(policy, fps, PortId(ports[i]).value);
    PrimaryOfSinglePreferred(policy, ports, ids, i);
    var primary := Partition(policy, ports, ids).primary;
    assert |primary| == 1;
    assert primary[0] in primary;
  }
  /** With a single USB port, and that port not preferred, the secondary
      list is exactly its name and the primary list is empty. */
  lemma {:induction false} SecondaryOfSingleUsb(policy: Policy, ports: seq<PortDetails>, ids: seq<UsbId>, i: nat)
    requires i < |ports| && ports[i].isUSB && !IsPreferred(ports[i], ids)
    requires forall j :: 0 <= j < |ports| && j != i ==> !ports[j].isUSB
    ensures Partition(policy, ports, ids) == Split2([], [ports[i].name])
    decreases |ports|
  {
    var init := ports[..|ports| - 1];
    var p := ports[|ports| - 1];
    assert forall j :: 0 <= j < |init| ==> init[j] == ports[j];
    if i == |ports| - 1 {
      NoUsbEmptyPartition(policy, init, ids);
      assert Partition(policy, ports, ids) == Split2([] + [], [] + [p.name]);
    } else {
      SecondaryOfSingleUsb(policy, init, ids, i);
      assert PrimaryEntries(policy, p, ids) == [] && SecondaryEntries(p, ids) == [];
      assert Partition(policy, ports, ids) == Split2([] + [], [init[i].name] + []);
    }
  }

  /** Without a `-port` list and without a preferred match, a lone USB
      port is chosen, however many non-USB ports are attached and whatever
      the fallback listing holds (lines 301-305 and 330-332). */
  lemma SingleUsbPortSelected(policy: Policy, portFlag: string, fps: seq<string>,
                              ports: seq<PortDetails>, fallback: Option<seq<string>>, i: nat)
    requires Fields(portFlag) == []
    requires ParsePreferred(policy, fps).Ok?
    requires i < |ports| && ports[i].isUSB && !IsPreferred(ports[i], ParsePreferred(policy, fps).value)
    requires forall j :: 0 <= j < |ports| && j != i ==> !ports[j].isUSB
    ensures Resolve(policy, portFlag, fps, Some(ports), fallback) == Ok(ports[i].name)
  {
    var ids := ParsePreferred(policy, fps).value;
    SecondaryOfSingleUsb(policy, ports, ids, i);
    assert MakeShortlist(policy, fps, Some(ports), fallback) == Ok(Pool([ports[i].name]));
  }


  /** Preferred ports take precedence: if any enumerated port is preferred,
      a result that was not given by `-port` is a preferred port; if none is
      but some USB port exists, it is one of the other USB ports. Non-USB
      ports are never chosen from the enumeration. */
  lemma PreferredPortsTakePrecedence(policy: Policy, portFlag: string, fps: seq<string>,
                                     ports: seq<PortDetails>, fallback: Option<seq<string>>)
    requires |Fields(portFlag)| != 1
    requires ParsePreferred(policy, fps).Ok?
    ensures var ids := ParsePreferred(policy, fps).value;
            var r := Resolve(policy, portFlag, fps, Some(ports), fallback);
            r.Ok? && (exists i :: 0 <= i < |ports| && IsPreferred(ports[i], ids)) ==>
              exists i :: 0 <= i < |ports| && IsPreferred(ports[i], ids) && ports[i].name == r.value
    ensures var ids := ParsePreferred(policy, fps).value;
            var r := Resolve(policy, portFlag, fps, Some(ports), fallback);
            r.Ok? && (forall i :: 0 <= i < |ports| ==> !IsPreferred(ports[i], ids)) && (exists i :: 0 <= i < |ports| && ports[i].isUSB) ==>
              exists i :: 0 <= i < |ports| && ports[i].isUSB && !IsPreferred(ports[i], ids) && ports[i].name == r.value
  {
    var ids := ParsePreferred(policy, fps).value;
    var res := Resolve(policy, portFlag, fps, Some(ports), fallback);
    if res.Ok? {
      var r := res.value;
      PartitionMembers(policy, ports, ids);
      var primary := Partition(policy, ports, ids).primary;
      var secondary := Partition(policy, ports, ids).secondary;
      if i :| 0 <= i < |ports| && IsPreferred(ports[i], ids) {
        assert ports[i].name in primary;
        if |primary| == 1 {
          assert r == primary[0];
        } else {
          assert r in primary;
        }
      } else if i :| 0 <= i < |ports| && ports[i].isUSB {
        NoPreferredNoPrimary(policy, ports, ids);
        assert ports[i].name in secondary;
        assert r in secondary;
      }
    }
  }

  /** The fallback listing is consulted only when the enumeration holds no
      USB port at all: with one present, the fallback result is irrelevant. */
  lemma FallbackOnlyWithoutUsbPorts(policy: Policy, portFlag: string, fps: seq<string>, ports: seq<PortDetails>,
                                    fallback1: Option<seq<string>>, fallback2: Option<seq<string>>)
    requires exists i :: 0 <= i < |ports| && ports[i].isUSB
    ensures Resolve(policy, portFlag, fps, Some(ports), fallback1) == Resolve(policy, portFlag, fps, Some(ports), fallback2)
  {
    ShortlistIgnoresFallback(policy, fps, ports, fallback1, fallback2);
  }

  lemma ShortlistIgnoresFallback(policy: Policy, fps: seq<string>, ports: seq<PortDetails>,
                                 fallback1: Option<seq<string>>, fallback2: Option<seq<string>>)
    requires exists i :: 0 <= i < |ports| && ports[i].isUSB
    ensures MakeShortlist(policy, fps, Some(ports), fallback1) == MakeShortlist(policy, fps, Some(ports), fallback2)
  {
    if ParsePreferred(policy, fps).Ok? {
      var ids := ParsePreferred(policy, fps).value;
      var i :| 0 <= i < |ports| && ports[i].isUSB;
      PartitionMembers(policy, ports, ids);
      var split := Partition(policy, ports, ids);
      assert ports[i].name in split.primary || ports[i].name in split.secondary;
      ShortlistWithoutFallback(policy, fps, ports, fallback1);
      ShortlistWithoutFallback(policy, fps, ports, fallback2);
    }
  }

  /** When the partition is not empty the shortlist is read off it alone. */
  lemma ShortlistWithoutFallback(policy: Policy, fps: seq<string>, ports: seq<PortDetails>, fallback: Option<seq<string>>)
    requires ParsePreferred(policy, fps).Ok?
    requires var split := Partition(policy, ports, ParsePreferred(policy, fps).value);
      |split.primary| > 0 || |split.secondary| > 0
    ensures var split := Partition(policy, ports, ParsePreferred(policy, fps).value);
      MakeShortlist(policy, fps, Some(ports), fallback) ==
        if |split.primary| == 1 then Ok(Preferred(split.primary[0]))
        else Ok(Pool(if |split.primary| > 1 then split.primary else split.secondary))
  {
  }

  /** Without any USB port the pool is the fallback listing: a failed
      listing and an empty one are errors, and a non-empty one is picked
      from as the enumerated pool would have been. */
  lemma NoUsbPortUsesFallback(policy: Policy, portFlag: string, fps: seq<string>, ports: seq<PortDetails>,
                              fallback: Option<seq<string>>)
    requires |Fields(portFlag)| != 1
    requires ParsePreferred(policy, fps).Ok?
    requires forall i :: 0 <= i < |ports| ==> !ports[i].isUSB
    ensures fallback.None? ==> Resolve(policy, portFlag, fps, Some(ports), fallback) == Err(FallbackFailed)
    ensures fallback == Some([]) ==> Resolve(policy, portFlag, fps, Some(ports), fallback) == Err(NoPort)
    ensures fallback.Some? && fallback.value != [] ==>
      Resolve(policy, portFlag, fps, Some(ports), fallback) == Select(Fields(portFlag), fallback.value)
  {
    NoUsbEmptyPartition(policy, ports, ParsePreferred(policy, fps).value);
  }

  /** A malformed entry that is read fails the whole resolution, even when
      no enumerated port could ever have matched it; only a successful
      enumeration is looked at first. */
  lemma MalformedFingerprintFailsFast(policy: Policy, portFlag: string, fps: seq<string>,
                                      ports: seq<PortDetails>, fallback: Option<seq<string>>, k: nat)
    requires |Fields(portFlag)| != 1
    requires k < |fps| && ReadFingerprint(policy, fps[k]).Malformed?
    ensures Resolve(policy, portFlag, fps, Some(ports), fallback).Err?
    ensures Resolve(policy, portFlag, fps, Some(ports), fallback).error.BadUsbId?
  {
  }

  /** The diagnostics name every port: an ambiguous pool lists each pool
      entry, and a failed `-port` list names each requested and each
      available port. */
  lemma ErrorsListEveryName(e: ResolveError)
    ensures e.Ambiguous? ==> forall k :: 0 <= k < |e.available| ==> IsInfix(e.available[k], Message(e))
    ensures e.NotFound? ==> forall k :: 0 <= k < |e.available| ==> IsInfix(e.available[k], Message(e))
    ensures e.NotFound? ==> forall k :: 0 <= k < |e.requested| ==> IsInfix(e.requested[k], Message(e))
  {
    match e
    case Ambiguous(ps) => AmbiguousListsPool(ps);
    case NotFound(req, ps) => NotFoundListsNames(req, ps);
    case _ =>
  }

  lemma AmbiguousListsPool(ps: seq<string>)
    ensures forall k :: 0 <= k < |ps| ==> IsInfix(ps[k], Message(Ambiguous(ps)))
  {
    var head := "multiple serial ports available - use -port flag, available ports are ";
    assert Message(Ambiguous(ps)) == head + Join(ps, ", ") + "";
    forall k | 0 <= k < |ps| ensures IsInfix(ps[k], Message(Ambiguous(ps))) {
      JoinContainsPart(ps, ", ", k);
      InfixInContext(ps[k], Join(ps, ", "), head, "");
    }
  }

  lemma NotFoundListsNames(req: seq<string>, ps: seq<string>)
    ensures forall k :: 0 <= k < |ps| ==> IsInfix(ps[k], Message(NotFound(req, ps)))
    ensures forall k :: 0 <= k < |req| ==> IsInfix(req[k], Message(NotFound(req, ps)))
  {
    var head := "port you specified '";
    var middle := "' does not exist, available ports are ";
    var m := Message(NotFound(req, ps));
    assert m == head + Join(req, ",") + (middle + Join(ps, ", "));
    assert m == (head + Join(req, ",") + middle) + Join(ps, ", ") + "";
    forall k | 0 <= k < |ps| ensures IsInfix(ps[k], m) {
      JoinContainsPart(ps, ", ", k);
      InfixInContext(ps[k], Join(ps, ", "), head + Join(req, ",") + middle, "");
    }
    forall k | 0 <= k < |req| ensures IsInfix(req[k], m) {
      JoinContainsPart(req, ",", k);
      InfixInContext(req[k], Join(req, ","), head, middle + Join(ps, ", "));
    }
  }
}
