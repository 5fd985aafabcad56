/**
 * Frame reassembly: the socket read loop of the client, which rebuilds whole
 * protocol messages (header + payload) from the byte chunks one `receive`
 * call at a time returns.
 *
 * `Step` is one iteration of the loop as a function of the accumulated bytes
 * and the next read target; `FrameReader` is the loop's state over the
 * fixed-size receive buffer, and its `Feed` is proved to compute `Step`.
 */
module Reassembly {
  import opened Wire

  /**
   * METADATA_ID is defined outside the modelled sources; all the client relies
   * on is that it is nonzero and shares no bit with the data ids 0..7.
   */
  predicate ValidMetadataId(m: u32) {
    m != 0 && m % 8 == 0
  }

  /** The ids the reader accepts while a message is still incomplete. */
  predicate LegalId(m: u32, id: u32) {
    id <= 7 || id == m
  }

  /** One dispatched protocol unit: the decoded header and the bytes after it. */
  datatype Message = Message(id: u32, length: u32, payload: seq<byte>)

  /** What one `receive` call did: return some bytes (possibly none), or fail (a negative count or an exception). */
  datatype Receive = Bytes(data: seq<byte>) | Failed

  /** What one loop iteration ends with: read on, hand one message to `ProcessPacket`, or leave the loop. */
  datatype Outcome = Continue | Dispatched(msg: Message) | Abort

  /** `acc` is m_Data[..nBufferOffset]; `target` is nAmount2Read. */
  datatype ReaderState = ReaderState(acc: seq<byte>, target: nat)

  datatype StepResult = StepResult(next: ReaderState, out: Outcome)

  /** Start of the loop and state after every dispatch: expect a new header. */
  const Initial: ReaderState := ReaderState([], HeaderSize)

  /** The bytes between the header and the message end; none for a header whose `length` is below the header size. */
  function Payload(acc: seq<byte>, length: u32): (p: seq<byte>)
    requires |acc| >= HeaderSize && |acc| >= length
    ensures length >= HeaderSize ==> |p| == length - HeaderSize
    ensures length >= HeaderSize ==> acc[..length] == acc[..HeaderSize] + p
    ensures length < HeaderSize ==> p == []
  {
    if length >= HeaderSize then acc[HeaderSize..length] else []
  }

  /**
   * One iteration of the read loop as the source writes it. The receive only
   * happens once the overflow check passed, and it never returns more than
   * the `target` bytes it was asked for.
   */
  function Step(size: nat, m: u32, st: ReaderState, r: Receive): StepResult
    requires r.Bytes? ==> |r.data| <= st.target
  {
    if |st.acc| + st.target > size then StepResult(st, Abort)
    else match r
      case Failed => StepResult(st, Abort)
      case Bytes(d) =>
        if |d| == 0 then StepResult(st, Continue)
        else
          var acc := st.acc + d;
          if |acc| < HeaderSize then
            // header still incomplete: the read target is left as it was
            StepResult(ReaderState(acc, st.target), Continue)
          else
            var h := DecodeHeader(acc);
            if |acc| < h.length then
              if !LegalId(m, h.id) then StepResult(ReaderState(acc, st.target), Abort)
              else StepResult(ReaderState(acc, h.length - |acc|), Continue)
            else
              StepResult(Initial, Dispatched(Message(h.id, h.length, Payload(acc, h.length))))
  }

  /**
   * The states the loop is in between iterations: short of a header with the
   * target still a whole header, or inside a legal message with the target
   * exactly the bytes it still lacks.
   */
  ghost predicate Inv(m: u32, st: ReaderState) {
    if |st.acc| < HeaderSize then st.target == HeaderSize
    else
      var h := DecodeHeader(st.acc);
      |st.acc| < h.length && LegalId(m, h.id) && st.target == h.length - |st.acc|
  }

  lemma InitialInv(m: u32)
    ensures Inv(m, Initial)
  {
  }

  /** Every iteration that does not leave the loop keeps `Inv`. */
  lemma StepKeepsInv(size: nat, m: u32, st: ReaderState, r: Receive)
    requires Inv(m, st)
    requires r.Bytes? ==> |r.data| <= st.target
    ensures Step(size, m, st, r).out != Abort ==> Inv(m, Step(size, m, st, r).next)
  {
  }

  /**
   * The loop leaves without dispatching exactly when the next read could
   * overflow the buffer, the read fails, or a message that is still
   * incomplete carries an id that is neither a data id nor METADATA_ID.
   */
  lemma AbortCases(size: nat, m: u32, st: ReaderState, r: Receive)
    requires r.Bytes? ==> |r.data| <= st.target
    ensures Step(size, m, st, r).out == Abort <==>
      || |st.acc| + st.target > size
      || r.Failed?
      || (var acc := st.acc + r.data;
          |r.data| > 0 && |acc| >= HeaderSize && |acc| < DecodeHeader(acc).length && !LegalId(m, DecodeHeader(acc).id))
  {
  }

  /**
   * Only whole messages are dispatched: the accumulated bytes cover the
   * header and the header's `length`, the message carries exactly the bytes
   * between them, and the reader then expects a new header.
   */
  lemma DispatchIsWhole(size: nat, m: u32, st: ReaderState, r: Receive)
    requires r.Bytes? ==> |r.data| <= st.target
    requires Step(size, m, st, r).out.Dispatched?
    ensures var acc := st.acc + r.data;
      var msg := Step(size, m, st, r).out.msg;
      && |acc| >= HeaderSize && |acc| >= msg.length
      && DecodeHeader(acc) == Header(msg.id, msg.length)
      && (msg.length >= HeaderSize ==> acc[..msg.length] == acc[..HeaderSize] + msg.payload)
      && Step(size, m, st, r).next == Initial
  {
  }

  /** A zero-byte read changes nothing and the loop goes on. */
  lemma EmptyReadIsNoOp(size: nat, m: u32, st: ReaderState)
    requires |st.acc| + st.target <= size
    ensures Step(size, m, st, Bytes([])) == StepResult(st, Continue)
  {
  }

  /** While a legal message is short, the next target is the number of bytes it still lacks. */
  lemma ShortMessageTarget(size: nat, m: u32, st: ReaderState, d: seq<byte>)
    requires 0 < |d| <= st.target && |st.acc| + st.target <= size
    requires |st.acc + d| >= HeaderSize
    requires |st.acc + d| < DecodeHeader(st.acc + d).length
    requires LegalId(m, DecodeHeader(st.acc + d).id)
    ensures Step(size, m, st, Bytes(d)) ==
      StepResult(ReaderState(st.acc + d, DecodeHeader(st.acc + d).length - |st.acc + d|), Continue)
  {
  }

  /*
   * The loop as written keeps nAmount2Read at a whole header after a read
   * that leaves the header incomplete, so the next read may take up to eight
   * bytes beyond the bytes already held. When the message is shorter than
   * that (a header-only message, say), the surplus bytes belong to the next
   * message and are dropped at the reset after dispatch. The intended read
   * target in that branch is the number of header bytes still missing.
   */

  /** The corrected iteration: identical to `Step` except that a partial header asks only for its missing bytes. */
  function StepIntended(size: nat, m: u32, st: ReaderState, r: Receive): (s: StepResult)
    requires r.Bytes? ==> |r.data| <= st.target
    ensures r.Bytes? && |r.data| > 0 && s.out.Continue? && |s.next.acc| < HeaderSize ==>
      s.next.target == HeaderSize - |s.next.acc|
  {
    var s := Step(size, m, st, r);
    if r.Bytes? && |r.data| > 0 && s.out.Continue? && |s.next.acc| < HeaderSize then
      StepResult(ReaderState(s.next.acc, HeaderSize - |s.next.acc|), Continue)
    else s
  }

  /** One iteration of either loop: the source's (`exact` false) or the corrected one. */
  function Next(exact: bool, size: nat, m: u32, st: ReaderState, r: Receive): StepResult
    requires r.Bytes? ==> |r.data| <= st.target
  {
    if exact then StepIntended(size, m, st, r) else Step(size, m, st, r)
  }

  /** The results a sequence of `receive` calls can return: no chunk longer than the target it was asked for. */
  ghost predicate Admissible(exact: bool, size: nat, m: u32, st: ReaderState, rs: seq<Receive>)
    decreases |rs|
  {
    rs == [] ||
    ((rs[0].Bytes? ==> |rs[0].data| <= st.target) &&
     var s := Next(exact, size, m, st, rs[0]);
     (s.out != Abort ==> Admissible(exact, size, m, s.next, rs[1..])))
  }

  datatype RunResult = RunResult(last: ReaderState, msgs: seq<Message>, aborted: bool)

  /** The read loop fed the results of a sequence of `receive` calls: the messages it dispatches, in order, until it leaves. */
  function Run(exact: bool, size: nat, m: u32, st: ReaderState, rs: seq<Receive>): (r: RunResult)
    requires Admissible(exact, size, m, st, rs)
    decreases |rs|
  {
    if rs == [] then RunResult(st, [], false)
    else
      var s := Next(exact, size, m, st, rs[0]);
      if s.out.Abort? then RunResult(s.next, [], true)
      else
        var rest := Run(exact, size, m, s.next, rs[1..]);
        RunResult(rest.last, (if s.out.Dispatched? then [s.out.msg] else []) + rest.msgs, rest.aborted)
  }

  /** Every `receive` returned bytes: none failed. */
  predicate NoFailure(rs: seq<Receive>) {
    forall k :: 0 <= k < |rs| ==> rs[k].Bytes?
  }

  /** The bytes received, in order; a failed `receive` contributes none. */
  function Concat(rs: seq<Receive>): (s: seq<byte>)
    ensures rs != [] ==> s == (if rs[0].Bytes? then rs[0].data else []) + Concat(rs[1..])
  {
    if rs == [] then [] else (if rs[0].Bytes? then rs[0].data else []) + Concat(rs[1..])
  }

  /** Where a message with header `h` ends: a header shorter than itself still occupies the header's bytes. */
  function FrameEnd(h: Header): (n: nat)
    ensures n >= HeaderSize && n >= h.length
  {
    if h.length < HeaderSize then HeaderSize else h.length
  }

  datatype Framing = Framing(msgs: seq<Message>, rest: seq<byte>)

  /**
   * The reference framing of a byte stream, independent of how it is
   * chunked: the complete messages at its front and the incomplete rest.
   */
  function Frames(s: seq<byte>): (f: Framing)
    decreases |s|
  {
    if |s| < HeaderSize then Framing([], s)
    else
      var h := DecodeHeader(s);
      var n := FrameEnd(h);
      if |s| < n then Framing([], s)
      else
        var f := Frames(s[n..]);
        Framing([Message(h.id, h.length, Payload(s[..n], h.length))] + f.msgs, f.rest)
  }

  /** A message the reader takes without leaving the loop: it fits the buffer, and a message longer than its header carries a legal id. */
  predicate Acceptable(size: nat, m: u32, h: Header) {
    FrameEnd(h) <= size && (h.length <= HeaderSize || LegalId(m, h.id))
  }

  /** Every message of the stream whose header is complete is acceptable. */
  ghost predicate WellFormed(size: nat, m: u32, s: seq<byte>)
    decreases |s|
  {
    |s| < HeaderSize ||
    (Acceptable(size, m, DecodeHeader(s)) &&
     (|s| >= FrameEnd(DecodeHeader(s)) ==> WellFormed(size, m, s[FrameEnd(DecodeHeader(s))..])))
  }

  /** The corrected loop's states: the target is always exactly what the current header or message still lacks. */
  ghost predicate InvIntended(m: u32, st: ReaderState) {
    if |st.acc| < HeaderSize then st.target == HeaderSize - |st.acc|
    else
      var h := DecodeHeader(st.acc);
      |st.acc| < h.length && LegalId(m, h.id) && st.target == h.length - |st.acc|
  }

  lemma HeaderOfPrefix(a: seq<byte>, b: seq<byte>)
    requires |a| >= HeaderSize
    ensures DecodeHeader(a + b) == DecodeHeader(a)
  {
    assert (a + b)[0..4] == a[0..4] && (a + b)[4..8] == a[4..8];
  }

  /** An incomplete message holds no complete frame. */
  lemma IncompleteHasNoFrame(m: u32, st: ReaderState)
    requires InvIntended(m, st)
    ensures Frames(st.acc) == Framing([], st.acc)
  {
  }

  /** Every corrected iteration that does not leave the loop keeps `InvIntended`, whatever the bytes. */
  lemma StepIntendedKeepsInv(size: nat, m: u32, st: ReaderState, r: Receive)
    requires InvIntended(m, st)
    requires r.Bytes? ==> |r.data| <= st.target
    ensures StepIntended(size, m, st, r).out != Abort ==> InvIntended(m, StepIntended(size, m, st, r).next)
  {
    if r.Bytes? && |st.acc| >= HeaderSize {
      HeaderOfPrefix(st.acc, r.data);
    }
  }

  /** The invariant of the loop an `exact` flag selects: the source's or the corrected one. */
  ghost predicate InvOf(exact: bool, m: u32, st: ReaderState) {
    if exact then InvIntended(m, st) else Inv(m, st)
  }

  /** Every iteration of the selected loop that does not leave it keeps that loop's invariant. */
  lemma NextKeepsInv(exact: bool, size: nat, m: u32, st: ReaderState, r: Receive)
    requires InvOf(exact, m, st)
    requires r.Bytes? ==> |r.data| <= st.target
    ensures Next(exact, size, m, st, r).out != Abort ==> InvOf(exact, m, Next(exact, size, m, st, r).next)
  {
    if exact {
      StepIntendedKeepsInv(size, m, st, r);
    } else {
      StepKeepsInv(size, m, st, r);
    }
  }

  /**
   * One corrected iteration inside a well-formed stream `st.acc + d + t`:
   * it never leaves the loop, keeps `InvIntended`, and either keeps the
   * bytes read so far or dispatches the first frame of the stream.
   */
  lemma IntendedStepInStream(size: nat, m: u32, st: ReaderState, d: seq<byte>, t: seq<byte>)
    requires size >= HeaderSize && InvIntended(m, st) && |d| <= st.target
    requires WellFormed(size, m, st.acc + d + t)
    ensures var s := StepIntended(size, m, st, Bytes(d));
      && s.out != Abort
      && InvIntended(m, s.next)
      && (s.out.Continue? ==> s.next.acc == st.acc + d)
      && (s.out.Dispatched? ==>
            && s.next == Initial
            && WellFormed(size, m, t)
            && Frames(st.acc + d + t) == Framing([s.out.msg] + Frames(t).msgs, Frames(t).rest))
  {
    var acc := st.acc + d;
    var stream := acc + t;
    if |st.acc| >= HeaderSize {
      HeaderOfPrefix(st.acc, d + t);
      assert st.acc + (d + t) == stream;
    }
    assert |st.acc| + st.target <= size;
    if |d| > 0 && |acc| >= HeaderSize {
      HeaderOfPrefix(acc, t);
      var h := DecodeHeader(acc);
      assert |acc| <= FrameEnd(h);
      if |acc| >= h.length {
        var n := FrameEnd(h);
        assert stream[..n] == acc && stream[n..] == t;
      }
    }
  }

  /**
   * The corrected loop dispatches exactly the reference framing of the bytes
   * it is given, however they are chunked, and keeps the incomplete rest.
   */
  lemma {:induction false} IntendedFollowsFrames(size: nat, m: u32, st: ReaderState, cs: seq<Receive>)
    requires size >= HeaderSize && InvIntended(m, st)
    requires NoFailure(cs) && Admissible(true, size, m, st, cs)
    requires WellFormed(size, m, st.acc + Concat(cs))
    ensures var r := Run(true, size, m, st, cs);
      && !r.aborted
      && r.msgs == Frames(st.acc + Concat(cs)).msgs
      && r.last.acc == Frames(st.acc + Concat(cs)).rest
      && InvIntended(m, r.last)
    decreases |cs|
  {
    if cs == [] {
      assert st.acc + Concat(cs) == st.acc;
      IncompleteHasNoFrame(m, st);
    } else {
      assert cs[0].Bytes?;
      var d, t := cs[0].data, Concat(cs[1..]);
      assert st.acc + Concat(cs) == st.acc + d + t;
      assert NoFailure(cs[1..]) by {
        forall k | 0 <= k < |cs[1..]| ensures cs[1..][k].Bytes? { assert cs[1..][k] == cs[k + 1]; }
      }
      IntendedStepInStream(size, m, st, d, t);
      var s := StepIntended(size, m, st, Bytes(d));
      if s.out.Dispatched? {
        assert Initial.acc + t == t;
        IntendedFollowsFrames(size, m, Initial, cs[1..]);
      } else {
        assert s.next.acc + t == st.acc + d + t;
        IntendedFollowsFrames(size, m, s.next, cs[1..]);
      }
    }
  }

  /** Any two chunkings of the same well-formed stream make the corrected loop dispatch the same messages. */
  lemma ChunkingDoesNotMatter(size: nat, m: u32, cs1: seq<Receive>, cs2: seq<Receive>)
    requires size >= HeaderSize && NoFailure(cs1) && NoFailure(cs2)
    requires Admissible(true, size, m, Initial, cs1) && Admissible(true, size, m, Initial, cs2)
    requires Concat(cs1) == Concat(cs2) && WellFormed(size, m, Concat(cs1))
    ensures Run(true, size, m, Initial, cs1).msgs == Run(true, size, m, Initial, cs2).msgs
  {
    assert Initial.acc + Concat(cs1) == Concat(cs1);
    IntendedFollowsFrames(size, m, Initial, cs1);
    IntendedFollowsFrames(size, m, Initial, cs2);
  }

  /** A header-only message with data id 0, as it appears on the wire. */
  const EmptyMessage: seq<byte> := [0, 0, 0, 0, 0, 0, 0, 8]

  lemma EmptyMessageFrames()
    ensures EmptyMessage == EncodeHeader(Header(0, 8))
    ensures DecodeHeader(EmptyMessage) == Header(0, 8)
    ensures WellFormed(64, 8, EmptyMessage + EmptyMessage)
    ensures Frames(EmptyMessage + EmptyMessage).msgs == [Message(0, 8, []), Message(0, 8, [])]
  {
    assert EmptyMessage[0..4] == [0, 0, 0, 0] && EmptyMessage[4..8] == [0, 0, 0, 8];
    var s := EmptyMessage + EmptyMessage;
    HeaderOfPrefix(EmptyMessage, EmptyMessage);
    assert s[..8] == EmptyMessage && s[8..] == EmptyMessage;
    assert EmptyMessage[..8] == EmptyMessage && EmptyMessage[8..] == [];
    assert Frames(EmptyMessage) == Framing([Message(0, 8, [])], []);
  }

  /** The two header-only messages read header by header. */
  const WholeReads: seq<Receive> := [Bytes(EmptyMessage), Bytes(EmptyMessage)]

  /** The same bytes read as 4 + 8 + 4 bytes. */
  const SplitReads: seq<Receive> := [Bytes([0, 0, 0, 0]), Bytes([0, 0, 0, 8, 0, 0, 0, 0]), Bytes([0, 0, 0, 8])]

  /** Read as two whole headers, both messages are dispatched. */
  lemma WholeHeaderReads()
    ensures && Concat(WholeReads) == EmptyMessage + EmptyMessage && NoFailure(WholeReads)
            && Admissible(false, 64, 8, Initial, WholeReads)
            && Run(false, 64, 8, Initial, WholeReads).msgs == [Message(0, 8, []), Message(0, 8, [])]
  {
    EmptyMessageFrames();
    var last: seq<Receive> := [Bytes(EmptyMessage)];
    assert WholeReads[1..] == last;
    assert last[1..] == [];
    assert Initial.acc + EmptyMessage == EmptyMessage;
    var step := Step(64, 8, Initial, Bytes(EmptyMessage));
    assert EmptyMessage[8..8] == [];
    assert step == StepResult(Initial, Dispatched(Message(0, 8, [])));
    assert Run(false, 64, 8, Initial, last[1..]) == RunResult(Initial, [], false);
    assert Run(false, 64, 8, Initial, last) == RunResult(Initial, [Message(0, 8, [])], false);
  }

  /** Read as 4 + 8 + 4 bytes, the middle read swallows half of the second header. */
  lemma SplitHeaderReads()
    ensures && Concat(SplitReads) == EmptyMessage + EmptyMessage && NoFailure(SplitReads)
            && Admissible(false, 64, 8, Initial, SplitReads)
            && Run(false, 64, 8, Initial, SplitReads).msgs == [Message(0, 8, [])]
            && Run(false, 64, 8, Initial, SplitReads).last == ReaderState([0, 0, 0, 8], 8)
  {
    var c1: seq<byte>, c2: seq<byte>, c3: seq<byte> := [0, 0, 0, 0], [0, 0, 0, 8, 0, 0, 0, 0], [0, 0, 0, 8];
    assert SplitReads[0] == Bytes(c1) && SplitReads[1..] == [Bytes(c2), Bytes(c3)];
    SplitSecondRead();
    SplitConcat();
    // first read: half the first header
    assert Initial.acc + c1 == c1;
    assert Step(64, 8, Initial, Bytes(c1)) == StepResult(ReaderState(c1, 8), Continue);
  }

  /** The three reads of the split carry the bytes of the two header-only messages. */
  lemma SplitConcat()
    ensures Concat(SplitReads) == EmptyMessage + EmptyMessage
  {
    var r1, r2, r3 := SplitReads[0], SplitReads[1], SplitReads[2];
    assert SplitReads == [r1, r2, r3];
    assert [r1, r2, r3][1..] == [r2, r3] && [r2, r3][1..] == [r3] && [r3][1..] == [];
    assert Concat(SplitReads) == [0, 0, 0, 0, 0, 0, 0, 8, 0, 0, 0, 0, 0, 0, 0, 8];
  }

  /** The second read of the split: the rest of the first header and half of the second; the first message is dispatched. */
  lemma SplitSecondRead()
    ensures var c1: seq<byte>, c2: seq<byte>, c3: seq<byte> := [0, 0, 0, 0], [0, 0, 0, 8, 0, 0, 0, 0], [0, 0, 0, 8];
      && Admissible(false, 64, 8, ReaderState(c1, 8), [Bytes(c2), Bytes(c3)])
      && Run(false, 64, 8, ReaderState(c1, 8), [Bytes(c2), Bytes(c3)]) == RunResult(ReaderState(c3, 8), [Message(0, 8, [])], false)
  {
    var c1: seq<byte>, c2: seq<byte>, c3: seq<byte> := [0, 0, 0, 0], [0, 0, 0, 8, 0, 0, 0, 0], [0, 0, 0, 8];
    SplitThirdRead();
    SplitDispatch();
    assert [Bytes(c2), Bytes(c3)][1..] == [Bytes(c3)];
  }

  /** The step of the second read: the first header is now complete and its empty message is dispatched. */
  lemma SplitDispatch()
    ensures Step(64, 8, ReaderState([0, 0, 0, 0], 8), Bytes([0, 0, 0, 8, 0, 0, 0, 0]))
         == StepResult(Initial, Dispatched(Message(0, 8, [])))
  {
    var c1: seq<byte>, c2: seq<byte> := [0, 0, 0, 0], [0, 0, 0, 8, 0, 0, 0, 0];
    EmptyMessageFrames();
    assert c1 + c2 == EmptyMessage + c1;
    HeaderOfPrefix(EmptyMessage, c1);
  }

  /** The third read of the split: half of the second header, which the reader keeps. */
  lemma SplitThirdRead()
    ensures var c3: seq<byte> := [0, 0, 0, 8];
      && Admissible(false, 64, 8, Initial, [Bytes(c3)])
      && Run(false, 64, 8, Initial, [Bytes(c3)]) == RunResult(ReaderState(c3, 8), [], false)
  {
    var c3: seq<byte> := [0, 0, 0, 8];
    assert [Bytes(c3)][1..] == [];
    assert Initial.acc + c3 == c3;
    assert Step(64, 8, Initial, Bytes(c3)) == StepResult(ReaderState(c3, 8), Continue);
  }

  /**
   * The source's loop fails the chunking property: the same two
   * header-only messages dispatch twice when read as 8 + 8 bytes, but only
   * once when read as 4 + 8 + 4 bytes, and the reader is then left holding
   * the misaligned tail of the second header.
   */
  lemma SplitHeaderLosesNextMessage()
    ensures exists cs1: seq<Receive>, cs2: seq<Receive> :: LosesMessages(cs1, cs2)
  {
    WholeSplitLoses();
    assert LosesMessages(WholeReads, SplitReads);
  }

  /**
   * Two ways of reading the same well-formed bytes, no read failing, where
   * the first way dispatches exactly the messages the bytes frame and the
   * second way dispatches different ones.
   */
  ghost predicate LosesMessages(cs1: seq<Receive>, cs2: seq<Receive>) {
    && NoFailure(cs1) && NoFailure(cs2)
    && Concat(cs1) == Concat(cs2) && WellFormed(64, 8, Concat(cs1))
    && Admissible(false, 64, 8, Initial, cs1) && Admissible(false, 64, 8, Initial, cs2)
    && Run(false, 64, 8, Initial, cs1).msgs == Frames(Concat(cs1)).msgs
    && Run(false, 64, 8, Initial, cs2).msgs != Run(false, 64, 8, Initial, cs1).msgs
  }

  /** The whole-header reads and the split reads of the two header-only messages. */
  lemma WholeSplitLoses()
    ensures LosesMessages(WholeReads, SplitReads)
  {
    EmptyMessageFrames();
    WholeHeaderReads();
    SplitHeaderReads();
  }

  /**
   * The read loop's buffer and local variables. `buf` is m_Data (recvBufSize
   * bytes), `offset` is nBufferOffset, `target` is nAmount2Read; `stopped`
   * records that the loop has left through a `break`.
   */
  class FrameReader {
    const size: nat
    const metadataId: u32
    /** Whether the reader runs the corrected iteration `StepIntended` instead of the source's `Step`. */
    const exact: bool
    const buf: array<byte>
    var offset: nat
    var target: nat
    var stopped: bool

    ghost predicate Valid()
      reads this, buf
    {
      && buf.Length == size
      && offset <= size
      && (!stopped ==> InvOf(exact, metadataId, ReaderState(buf[..offset], target)))
    }

    /** The abstract state: the accumulated bytes and the read target. */
    ghost function State(): ReaderState
      reads this, buf
      requires offset <= buf.Length
    {
      ReaderState(buf[..offset], target)
    }

    constructor (size: nat, metadataId: u32, exact: bool)
      ensures Valid() && fresh(buf) && !stopped
      ensures this.size == size && this.metadataId == metadataId && this.exact == exact
      ensures State() == Initial
    {
      this.size := size;
      this.metadataId := metadataId;
      this.exact := exact;
      buf := new byte[size];
      offset := 0;
      target := HeaderSize;
      stopped := false;
    }

    /** What the socket `receive` does with the buffer: the chunk lands at m_Data + nBufferOffset. */
    method Receive(d: seq<byte>)
      requires Valid() && offset + |d| <= size
      modifies buf
      ensures buf[..offset + |d|] == old(buf[..offset]) + d
    {
      ghost var before := buf[..offset];
      var i := 0;
      while i < |d|
        invariant 0 <= i <= |d|
        invariant buf[..offset + i] == before + d[..i]
        modifies buf
      {
        buf[offset + i] := d[i];
        i := i + 1;
        assert buf[..offset + i] == buf[..offset + i - 1] + [d[i - 1]];
      }
      assert d[..|d|] == d;
    }

    /** The header fields at the start of the buffer, in host order. */
    method ReadHeader() returns (id: u32, length: u32)
      requires HeaderSize <= offset <= buf.Length
      ensures Header(id, length) == DecodeHeader(buf[..offset])
    {
      assert buf[..offset][0..4] == buf[0..4] && buf[..offset][4..8] == buf[4..8];
      id := DecodeBE32(buf[0..4]);
      length := DecodeBE32(buf[4..8]);
    }

    /** The payload of a whole message in the buffer. */
    method ReadPayload(length: u32) returns (payload: seq<byte>)
      requires HeaderSize <= offset <= buf.Length && length <= offset
      ensures payload == Payload(buf[..offset], length)
    {
      payload := if length >= HeaderSize then buf[HeaderSize..length] else [];
      assert length >= HeaderSize ==> buf[..offset][HeaderSize..length] == buf[HeaderSize..length];
    }

    /**
     * One iteration of the read loop, given what the `receive` call returns
     * (it is only made when the overflow check passes).
     */
    method Feed(r: Receive) returns (out: Outcome)
      requires Valid() && !stopped
      requires r.Bytes? ==> |r.data| <= target
      modifies this, buf
      ensures Valid()
      ensures StepResult(State(), out) == Next(exact, size, metadataId, old(State()), r)
      ensures stopped <==> out.Abort?
    {
      if offset + target > size {
        stopped := true;
        return Abort;
      }
      if r.Failed? {
        stopped := true;
        return Abort;
      }
      var d := r.data;
      if |d| == 0 {
        return Continue;
      }
      ghost var st := State();
      Receive(d);
      offset := offset + |d|;
      ghost var acc := st.acc + d;
      assert buf[..offset] == acc;
      if offset < HeaderSize {
        if exact {
          // the corrected loop asks only for the missing header bytes
          target := HeaderSize - offset;
        }
        assert State() == ReaderState(acc, target);
        return Continue;
      }
      out := Settle(st, d);
    }

    /**
     * The rest of an iteration once the bytes held cover a header: leave on
     * a bad id, ask for the rest of a short message, or dispatch a whole one.
     */
    method Settle(ghost st: ReaderState, ghost d: seq<byte>) returns (out: Outcome)
      requires buf.Length == size && HeaderSize <= offset <= size && !stopped
      requires InvOf(exact, metadataId, st) && 0 < |d| <= st.target && |st.acc| + st.target <= size
      requires buf[..offset] == st.acc + d && target == st.target
      modifies this
      ensures Valid()
      ensures StepResult(State(), out) == Next(exact, size, metadataId, st, Bytes(d))
      ensures stopped <==> out.Abort?
    {
      ghost var acc := st.acc + d;
      var id, length := ReadHeader();
      if offset < length {
        if !LegalId(metadataId, id) {
          stopped := true;
          assert State() == ReaderState(acc, st.target);
          return Abort;
        }
        target := length - offset;
        assert State() == ReaderState(acc, length - |acc|);
        return Continue;
      }
      var payload := ReadPayload(length);
      offset, target := 0, HeaderSize;
      assert payload == Payload(acc, length);
      return Dispatched(Message(id, length, payload));
    }
  }
}
