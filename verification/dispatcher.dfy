/** The input dispatcher of main.go (the stdin loop of `run`, lines 199-221)
    as a step function over one chunk read from the terminal, and a fold of
    that step over a sequence of chunks. The reconnecting reader goroutine
    enters only through its effect: whether the port was marked as failing
    when a chunk was about to be written. */
module InputDispatcher {
  import opened Wrappers

  type Byte = bv8

  /** Ctrl-C, which ends the session unless `-disable-ctrl-c` is given. */
  const CtrlC: Byte := 0x03
  /** Ctrl-X, the escape prefix. */
  const CtrlX: Byte := 0x18
  /** The letter `q`, which after Ctrl-X ends the session. */
  const LetterQ: Byte := 0x71
  /** The remembered byte before anything has been read (line 200). */
  const InitialPrev: Byte := 0

  /** Byte `b`, read right after byte `before`, ends the session
      (lines 206-213). */
  predicate EndsSession(before: Byte, b: Byte, disableCtrlC: bool)
  {
    (!disableCtrlC && b == CtrlC) || (before == CtrlX && b == LetterQ)
  }

  /** The byte read just before position `i` of `chunk`: for the first byte
      of a chunk it is the byte remembered from earlier chunks. */
  function Before(prev: Byte, chunk: seq<Byte>, i: nat): Byte
    requires i < |chunk|
  {
    if i == 0 then prev else chunk[i - 1]
  }

  /** Some byte of `chunk` ends the session. */
  predicate Triggers(prev: Byte, chunk: seq<Byte>, disableCtrlC: bool)
  {
    exists i :: 0 <= i < |chunk| && EndsSession(Before(prev, chunk, i), chunk[i], disableCtrlC)
  }

  /** The most recent byte read: the chunk's last byte, or the remembered
      one when the chunk is empty. */
  function LastByte(prev: Byte, chunk: seq<Byte>): Byte
  {
    if |chunk| == 0 then prev else chunk[|chunk| - 1]
  }

  /** The byte loop of lines 205-215: `None` when a byte breaks out of the
      session loop, otherwise the byte remembered afterwards. */
  function Scan(prev: Byte, chunk: seq<Byte>, disableCtrlC: bool): (r: Option<Byte>)
    ensures r.None? <==> Triggers(prev, chunk, disableCtrlC)
    ensures r.Some? ==> r.value == LastByte(prev, chunk)
    decreases |chunk|
  {
    if |chunk| == 0 then Some(prev)
    else if EndsSession(prev, chunk[0], disableCtrlC) then
      assert Before(prev, chunk, 0) == prev;
      None
    else
      var rest := chunk[1..];
      assert forall i :: 0 <= i < |rest| ==> Before(chunk[0], rest, i) == Before(prev, chunk, i + 1) && rest[i] == chunk[i + 1];
      assert Triggers(prev, chunk, disableCtrlC) ==> Triggers(chunk[0], rest, disableCtrlC) by {
        if Triggers(prev, chunk, disableCtrlC) {
          var i :| 0 <= i < |chunk| && EndsSession(Before(prev, chunk, i), chunk[i], disableCtrlC);
          assert i > 0;
          assert EndsSession(Before(chunk[0], rest, i - 1), rest[i - 1], disableCtrlC);
        }
      }
      Scan(chunk[0], rest, disableCtrlC)
  }

  datatype Outcome = Exit | Continue(prev: Byte, written: seq<Byte>)

  /** One pass of the session loop over the chunk just read. The session
      ends when some byte of the chunk is Ctrl-C (unless disabled) or a `q`
      right after Ctrl-X, where that Ctrl-X may be the last byte of an
      earlier chunk; then nothing of the chunk is written, not even the
      bytes before the trigger. Otherwise the whole chunk is written unless
      the port is marked as failing, and its last byte is remembered. */
  function Step(prev: Byte, chunk: seq<Byte>, disableCtrlC: bool, portHasError: bool): (r: Outcome)
    ensures r.Exit? <==> Triggers(prev, chunk, disableCtrlC)
    ensures r.Continue? ==> r.prev == LastByte(prev, chunk)
    ensures r.Continue? && !portHasError ==> r.written == chunk
    ensures r.Continue? && portHasError ==> r.written == []
  {
    match Scan(prev, chunk, disableCtrlC)
    case None => Exit
    case Some(p) => Continue(p, if portHasError then [] else chunk)
  }

  /** All chunks, concatenated: the byte stream as typed. */
  function Flatten(chunks: seq<seq<Byte>>): seq<Byte>
  {
    if |chunks| == 0 then [] else chunks[0] + Flatten(chunks[1..])
  }

  /** The session after some chunks: whether it has ended, the remembered
      byte, and everything written to the port. */
  datatype Session = Session(exited: bool, prev: Byte, written: seq<Byte>)

  /** The session loop over a sequence of chunks, `portErrors[k]` being the
      port's failure flag when chunk `k` is about to be written. Reading
      stops at the first chunk that ends the session. */
  function Run(prev: Byte, chunks: seq<seq<Byte>>, disableCtrlC: bool, portErrors: seq<bool>): (r: Session)
    requires |portErrors| == |chunks|
    ensures !r.exited ==> r.prev == LastByte(prev, Flatten(chunks))
    ensures |r.written| <= |Flatten(chunks)|
    decreases |chunks|
  {
    if |chunks| == 0 then Session(false, prev, [])
    else match Step(prev, chunks[0], disableCtrlC, portErrors[0])
      case Exit => Session(true, prev, [])
      case Continue(p, w) =>
        var rest := Run(p, chunks[1..], disableCtrlC, portErrors[1..]);
        LastByteConcat(prev, chunks[0], Flatten(chunks[1..]));
        Session(rest.exited, rest.prev, w + rest.written)
  }

  /** Scanning two pieces one after the other is scanning their
      concatenation: the remembered byte carries the state across. */
  lemma {:induction false} ScanConcat(prev: Byte, a: seq<Byte>, b: seq<Byte>, disableCtrlC: bool)
    ensures Scan(prev, a + b, disableCtrlC) ==
      match Scan(prev, a, disableCtrlC)
      case None => None
      case Some(p) => Scan(p, b, disableCtrlC)
    decreases |a|
  {
    if |a| == 0 {
      assert a + b == b;
    } else {
      assert (a + b)[0] == a[0];
      assert (a + b)[1..] == a[1..] + b;
      if !EndsSession(prev, a[0], disableCtrlC) {
        ScanConcat(a[0], a[1..], b, disableCtrlC);
      }
    }
  }

  /** Running two runs of chunks back to back is running their
      concatenation: the remembered byte persists across chunks, and once
      the session has ended nothing later is read or written. */
  lemma {:induction false} RunConcat(prev: Byte, a: seq<seq<Byte>>, b: seq<seq<Byte>>, disableCtrlC: bool,
                                     ea: seq<bool>, eb: seq<bool>)
    requires |ea| == |a| && |eb| == |b|
    ensures var s := Run(prev, a, disableCtrlC, ea);
      Run(prev, a + b, disableCtrlC, ea + eb) ==
        if s.exited then s
        else
          var t := Run(s.prev, b, disableCtrlC, eb);
          Session(t.exited, t.prev, s.written + t.written)
    decreases |a|
  {
    if |a| == 0 {
      assert a + b == b && ea + eb == eb;
    } else {
      var c, ec := a + b, ea + eb;
      assert c[0] == a[0] && ec[0] == ea[0];
      assert c[1..] == a[1..] + b && ec[1..] == ea[1..] + eb;
      var o := Step(prev, a[0], disableCtrlC, ea[0]);
      assert Step(prev, c[0], disableCtrlC, ec[0]) == o;
      if o.Continue? {
        RunConcat(o.prev, a[1..], b, disableCtrlC, ea[1..], eb);
        var s := Run(o.prev, a[1..], disableCtrlC, ea[1..]);
        var t := Run(s.prev, b, disableCtrlC, eb);
        assert o.written + (s.written + t.written) == (o.written + s.written) + t.written;
      }
    }
  }

  /** Escape detection does not depend on how the input was split into
      chunks: the session ends exactly when the byte stream as typed holds
      a trigger. */
  lemma {:induction false} ExitIffStreamTriggers(prev: Byte, chunks: seq<seq<Byte>>, disableCtrlC: bool, portErrors: seq<bool>)
    requires |portErrors| == |chunks|
    ensures Run(prev, chunks, disableCtrlC, portErrors).exited <==> Triggers(prev, Flatten(chunks), disableCtrlC)
    decreases |chunks|
  {
    if |chunks| > 0 {
      ScanConcat(prev, chunks[0], Flatten(chunks[1..]), disableCtrlC);
      var s := Scan(prev, chunks[0], disableCtrlC);
      if s.Some? {
        ExitIffStreamTriggers(s.value, chunks[1..], disableCtrlC, portErrors[1..]);
      }
    }
  }

  lemma LastByteConcat(prev: Byte, a: seq<Byte>, b: seq<Byte>)
    ensures LastByte(prev, a + b) == LastByte(LastByte(prev, a), b)
  {
    if |b| == 0 {
      assert a + b == a;
    }
  }

  /** While the port is healthy and no trigger is typed, every chunk is
      written in full and in order, and the remembered byte is the last byte
      typed. */
  lemma {:induction false} HealthyRunForwardsEverything(prev: Byte, chunks: seq<seq<Byte>>, disableCtrlC: bool,
                                                        portErrors: seq<bool>)
    requires |portErrors| == |chunks|
    requires forall k :: 0 <= k < |portErrors| ==> !portErrors[k]
    requires !Triggers(prev, Flatten(chunks), disableCtrlC)
    ensures !Run(prev, chunks, disableCtrlC, portErrors).exited
    ensures Run(prev, chunks, disableCtrlC, portErrors).written == Flatten(chunks)
    ensures Run(prev, chunks, disableCtrlC, portErrors).prev == LastByte(prev, Flatten(chunks))
    decreases |chunks|
  {
    ExitIffStreamTriggers(prev, chunks, disableCtrlC, portErrors);
    if |chunks| > 0 {
      ScanConcat(prev, chunks[0], Flatten(chunks[1..]), disableCtrlC);
      var p := LastByte(prev, chunks[0]);
      ExitIffStreamTriggers(p, chunks[1..], disableCtrlC, portErrors[1..]);
      HealthyRunForwardsEverything(p, chunks[1..], disableCtrlC, portErrors[1..]);
      LastByteConcat(prev, chunks[0], Flatten(chunks[1..]));
    }
  }

  /** The chunk that ends the session adds nothing to what was written,
      and neither does anything read after it. */
  lemma TriggeringChunkNotWritten(prev: Byte, before: seq<seq<Byte>>, chunk: seq<Byte>, after: seq<seq<Byte>>,
                                  disableCtrlC: bool, eb: seq<bool>, e: bool, ea: seq<bool>)
    requires |eb| == |before| && |ea| == |after|
    requires !Run(prev, before, disableCtrlC, eb).exited
    requires Triggers(Run(prev, before, disableCtrlC, eb).prev, chunk, disableCtrlC)
    ensures Run(prev, before + [chunk] + after, disableCtrlC, eb + [e] + ea) ==
      Session(true, Run(prev, before, disableCtrlC, eb).prev, Run(prev, before, disableCtrlC, eb).written)
  {
    var s := Run(prev, before, disableCtrlC, eb);
    TriggeringChunkAlone(s.prev, chunk, disableCtrlC, e);
    RunConcat(prev, before, [chunk], disableCtrlC, eb, [e]);
    assert s.written + [] == s.written;
    RunConcat(prev, before + [chunk], after, disableCtrlC, eb + [e], ea);
  }

  lemma TriggeringChunkAlone(prev: Byte, chunk: seq<Byte>, disableCtrlC: bool, e: bool)
    requires Triggers(prev, chunk, disableCtrlC)
    ensures Run(prev, [chunk], disableCtrlC, [e]) == Session(true, prev, [])
  {
    assert Step(prev, [chunk][0], disableCtrlC, [e][0]) == Exit;
  }

  /** Ctrl-X then `q` ends the session, also after a second Ctrl-X and also
      when the two bytes arrive in different chunks; `x` then `q` does not,
      and both are written. Ctrl-C ends the session only when it is not
      disabled, and is written like any byte when it is. */
  lemma EscapeExamples()
    ensures Step(InitialPrev, [CtrlX, LetterQ], false, false) == Exit
    ensures Step(InitialPrev, [CtrlX, CtrlX, LetterQ], true, false) == Exit
    ensures Step(CtrlX, [LetterQ], true, false) == Exit
    ensures Step(InitialPrev, [0x78, LetterQ], false, false) == Continue(LetterQ, [0x78, LetterQ])
    ensures Step(InitialPrev, [CtrlC], false, false) == Exit
    ensures Step(InitialPrev, [CtrlC], true, false) == Continue(CtrlC, [CtrlC])
    ensures Step(InitialPrev, [0x41, CtrlC], true, true) == Continue(CtrlC, [])
  {
    assert EndsSession(Before(InitialPrev, [CtrlX, LetterQ], 1), LetterQ, false);
    assert EndsSession(Before(InitialPrev, [CtrlX, CtrlX, LetterQ], 2), LetterQ, true);
    assert EndsSession(Before(CtrlX, [LetterQ], 0), LetterQ, true);
    assert EndsSession(Before(InitialPrev, [CtrlC], 0), CtrlC, false);
  }
}
