/** Three places where the resolver as written departs from what its comments
    and its error messages say it intends, each stated for all inputs of the
    shape that shows it, next to the corrected reading that
    `Policy.Corrected` selects. */
module ResolverFindings {
  import opened Wrappers
  import opened Text
  import opened Hex
  import opened PortResolver
  import opened ResolverProperties

  /** A `kind:vid:pid` fingerprint splits into its three fields. */
  lemma SplitFingerprint(kind: string, vid: string, pid: string)
    requires ':' !in kind && ':' !in vid && ':' !in pid
    ensures Split(kind + ":" + vid + ":" + pid, ':') == [kind, vid, pid]
  {
    assert Join([kind, vid, pid], ":") == kind + ":" + Join([vid, pid], ":");
    assert Join([vid, pid], ":") == vid + ":" + pid;
    assert kind + ":" + (vid + ":" + pid) == kind + ":" + vid + ":" + pid;
    SplitOfJoin([kind, vid, pid], ':');
  }

  /** An empty `-port` flag names no port. */
  lemma NoPortFlag()
    ensures Fields("") == []
  {
    assert Split("", ',') == [""];
  }

  /** A one-entry fingerprint list yields that entry's reading. */
  lemma ParseOne(policy: Policy, fp: string)
    ensures ReadFingerprint(policy, fp).Ignored? ==> ParsePreferred(policy, [fp]) == Ok([])
    ensures ReadFingerprint(policy, fp).Parsed? ==> ParsePreferred(policy, [fp]) == Ok([ReadFingerprint(policy, fp).id])
    ensures ReadFingerprint(policy, fp).Malformed? ==> ParsePreferred(policy, [fp]) == Err(ReadFingerprint(policy, fp).error)
  {
    assert [fp][1..] == [];
    if ReadFingerprint(policy, fp).Parsed? {
      assert [ReadFingerprint(policy, fp).id] + [] == [ReadFingerprint(policy, fp).id];
    }
  }

  /** The partition of two ports is their contributions in order. */
  lemma PartitionOfTwo(policy: Policy, p: PortDetails, q: PortDetails, ids: seq<UsbId>)
    ensures Partition(policy, [p, q], ids) ==
      Split2(PrimaryEntries(policy, p, ids) + PrimaryEntries(policy, q, ids),
             SecondaryEntries(p, ids) + SecondaryEntries(q, ids))
  {
    PartitionOfOne(policy, p, ids);
    PartitionSnoc(policy, [p], q, ids);
    assert [p] + [q] == [p, q];
  }

  /** As written, the kind test of line 247 ignores every `usb` entry and
      reads every entry of any other kind, the reverse of its comment (acm
      and usb are the two kinds recognised). So a board listed as
      `usb:vid:pid` is never preferred, and with a second USB adapter
      attached the resolver reports both ports instead of choosing the
      board; and an entry of an unknown kind whose vendor ID is not hex
      fails the whole resolution. */
  lemma KindFilterAsWritten(kind: string, vid: string, pid: string, board: PortDetails, other: PortDetails,
                            ports: seq<PortDetails>, fallback: Option<seq<string>>)
    requires ':' !in kind && ':' !in vid && ':' !in pid
    requires board.isUSB && other.isUSB
    ensures ReadFingerprint(AsWritten, kind + ":" + vid + ":" + pid).Ignored? <==> kind == "usb"
    ensures kind == "usb" ==>
      Resolve(AsWritten, "", [kind + ":" + vid + ":" + pid], Some([board, other]), fallback)
        == Err(Ambiguous([board.name, other.name]))
    ensures kind != "usb" && ParseUint16(vid).None? ==>
      Resolve(AsWritten, "", [kind + ":" + vid + ":" + pid], Some(ports), fallback) == Err(BadUsbId(VendorId, vid))
  {
    SplitFingerprint(kind, vid, pid);
    if kind == "usb" {
      UsbEntryIgnoredAsWritten(kind + ":" + vid + ":" + pid, board, other, fallback);
    } else if ParseUint16(vid).None? {
      ParseOne(AsWritten, kind + ":" + vid + ":" + pid);
      NoPortFlag();
    }
  }

  lemma UsbEntryIgnoredAsWritten(fp: string, board: PortDetails, other: PortDetails, fallback: Option<seq<string>>)
    requires ReadFingerprint(AsWritten, fp).Ignored?
    requires board.isUSB && other.isUSB
    ensures Resolve(AsWritten, "", [fp], Some([board, other]), fallback) == Err(Ambiguous([board.name, other.name]))
  {
    ParseOne(AsWritten, fp);
    NoPortFlag();
    PartitionOfTwo(AsWritten, board, other, []);
    var pool := [board.name, other.name];
    assert Partition(AsWritten, [board, other], []) == Split2([], pool);
    assert |pool| == 2;
  }

  /** Corrected, exactly the `usb` and `acm` entries are read and every
      other kind is ignored: an entry of another kind changes nothing, and
      a `usb` or `acm` entry picks out the one board that carries its IDs. */
  lemma KindFilterCorrected(kind: string, vid: string, pid: string, board: PortDetails, other: PortDetails,
                            ports: seq<PortDetails>, fallback: Option<seq<string>>)
    requires ':' !in kind && ':' !in vid && ':' !in pid
    ensures ReadFingerprint(Corrected, kind + ":" + vid + ":" + pid).Ignored? <==> kind != "usb" && kind != "acm"
    ensures kind != "usb" && kind != "acm" ==>
      Resolve(Corrected, "", [kind + ":" + vid + ":" + pid], Some(ports), fallback)
        == Resolve(Corrected, "", [], Some(ports), fallback)
    ensures (kind == "usb" || kind == "acm") && board.isUSB && board.vid == vid && board.pid == pid
            && PortId(board).Some? && PortId(other) != PortId(board) ==>
      Resolve(Corrected, "", [kind + ":" + vid + ":" + pid], Some([board, other]), fallback) == Ok(board.name)
  {
    var fp := kind + ":" + vid + ":" + pid;
    SplitFingerprint(kind, vid, pid);
    ParseOne(Corrected, fp);
    NoPortFlag();
    if (kind == "usb" || kind == "acm") && board.isUSB && board.vid == vid && board.pid == pid
       && PortId(board).Some? && PortId(other) != PortId(board) {
      var ports2 := [board, other];
      assert ParsePreferred(Corrected, [fp]) == Ok([PortId(board).value]);
      SingleMatchingBoardSelected(Corrected, "", [fp], ports2, fallback, 0);
    }
  }

  /** As written, an entry whose vendor ID parses but whose product ID does
      not is reported with the vendor-ID text (line 260 formats `parts[1]`),
      so the message names the wrong, valid, field value. */
  lemma ProductIdErrorAsWritten(kind: string, vid: string, pid: string, ports: seq<PortDetails>,
                                fallback: Option<seq<string>>)
    requires ':' !in kind && ':' !in vid && ':' !in pid
    requires kind == "acm" && ParseUint16(vid).Some? && ParseUint16(pid).None?
    ensures Resolve(AsWritten, "", [kind + ":" + vid + ":" + pid], Some(ports), fallback) == Err(BadUsbId(ProductId, vid))
  {
    SplitFingerprint(kind, vid, pid);
    ParseOne(AsWritten, kind + ":" + vid + ":" + pid);
    NoPortFlag();
  }

  /** Corrected, the product-ID error quotes the product-ID text. */
  lemma ProductIdErrorCorrected(kind: string, vid: string, pid: string, ports: seq<PortDetails>,
                                fallback: Option<seq<string>>)
    requires ':' !in kind && ':' !in vid && ':' !in pid
    requires (kind == "acm" || kind == "usb") && ParseUint16(vid).Some? && ParseUint16(pid).None?
    ensures Resolve(Corrected, "", [kind + ":" + vid + ":" + pid], Some(ports), fallback) == Err(BadUsbId(ProductId, pid))
    ensures Message(Resolve(Corrected, "", [kind + ":" + vid + ":" + pid], Some(ports), fallback).error)
      == "could not parse USB product ID \"" + pid + "\""
  {
    SplitFingerprint(kind, vid, pid);
    ParseOne(Corrected, kind + ":" + vid + ":" + pid);
    NoPortFlag();
  }

  /** As written, the `continue` of line 280 only moves on to the next
      preferred pair, so a target that lists its board's ID twice adds that
      one board twice to the primary list, and the resolver then reports
      the single board as two ambiguous ports. */
  lemma DuplicatePairAmbiguousAsWritten(fp: string, p: PortDetails, fallback: Option<seq<string>>)
    requires ReadFingerprint(AsWritten, fp).Parsed?
    requires p.isUSB && PortId(p) == Some(ReadFingerprint(AsWritten, fp).id)
    ensures Resolve(AsWritten, "", [fp, fp], Some([p]), fallback) == Err(Ambiguous([p.name, p.name]))
  {
    NoPortFlag();
    var id := ReadFingerprint(AsWritten, fp).id;
    ParseOne(AsWritten, fp);
    assert [fp, fp][1..] == [fp];
    assert [id] + [id] == [id, id];
    assert ParsePreferred(AsWritten, [fp, fp]) == Ok([id, id]);
    var entries := AppendPerMatch(p.name, id, [id, id]);
    assert |entries| == 2 by {
      assert multiset([id, id])[id] == 2;
    }
    assert entries == [p.name, p.name];
    PartitionOfOne(AsWritten, p, [id, id]);
    assert Partition(AsWritten, [p], [id, id]) == Split2([p.name, p.name], []);
    assert MakeShortlist(AsWritten, [fp, fp], Some([p]), fallback) == Ok(Pool([p.name, p.name]));
  }

  /** Corrected, a board is added once however often its ID is listed, so
      the duplicated entry selects it. */
  lemma DuplicatePairCorrected(fp: string, p: PortDetails, fallback: Option<seq<string>>)
    requires ReadFingerprint(Corrected, fp).Parsed?
    requires p.isUSB && PortId(p) == Some(ReadFingerprint(Corrected, fp).id)
    ensures Resolve(Corrected, "", [fp, fp], Some([p]), fallback) == Ok(p.name)
  {
    NoPortFlag();
    var id := ReadFingerprint(Corrected, fp).id;
    ParseOne(Corrected, fp);
    assert [fp, fp][1..] == [fp];
    assert [id] + [id] == [id, id];
    assert ParsePreferred(Corrected, [fp, fp]) == Ok([id, id]);
    SingleMatchingBoardSelected(Corrected, "", [fp, fp], [p], fallback, 0);
  }
}
