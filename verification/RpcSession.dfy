/** RPC messages and the session: sending a command and pumping until its response. */
module RpcSession {
  import opened Bytes
  import opened RpcCodec
  import opened RpcBytes
  import RpcMessages

  const SYNC_TID := 0x1100_0100
  const ASYNC_TID := 0x1100_0101
  // UtaMsNetIsAttachAllowedIndCb in the table of unsolicited messages.
  const ATTACH_ALLOWED_IND := 0x06c

  datatype MessageType = Response | AsyncAck | Unsolicited

  datatype Message = Message(tid: nat, kind: MessageType, code: nat, body: seq<byte>, content: seq<Value>)

  function AsnInt4(n: nat): (s: seq<byte>)
    ensures |s| == 6
  {
    [0x02, 0x04] + Be32(n)
  }

  // The bytes execute writes.
  function Request(cmd: nat, body: seq<byte>, isAsync: bool): Result<seq<byte>> {
    var total := |body| + 16 + if isAsync then 6 else 0;
    if total >= 0x1_0000_0000 || cmd >= 0x1_0000_0000 then Err(StructError)
    else
      Ok(Le32(total) + AsnInt4(total) + AsnInt4(cmd)
         + (if isAsync then Be32(ASYNC_TID) + AsnInt4(ASYNC_TID) else Be32(SYNC_TID)) + body)
  }

  predicate HasInt4Tag(message: seq<byte>, pos: nat) {
    pos + 2 <= |message| && message[pos] == 0x02 && message[pos + 1] == 0x04
  }

  // Classification by the transaction id; an asynchronous response repeats it as its first value.
  function Classified(tid: nat, code: nat, body: seq<byte>, content: seq<Value>): Result<Message> {
    if tid == SYNC_TID then Ok(Message(tid, Response, code, body, content))
    else if tid - tid % 256 == SYNC_TID then
      if code >= 2000 then Ok(Message(tid, AsyncAck, code, body, content))
      else if content == [] then Err(IndexError)
      else if content[0] != Int(tid) then Err(AssertionError)
      else Ok(Message(tid, Response, code, body[Min(6, |body|)..], content[1..]))
    else Ok(Message(tid, Unsolicited, code, body, content))
  }

  // handle_message; differing lengths only earn a warning there.
  function Handled(message: seq<byte>): Result<Message> {
    if !HasInt4Tag(message, 4) || !HasInt4Tag(message, 10) then Err(AssertionError)
    else if |message| < 20 then Err(StructError)
    else
      match Decoded(message[20..])
      case Err(e) => Err(e)
      case Ok(content) =>
        Classified(FromBe32(message[16..20]), FromBe32(message[12..16]), message[20..], content)
  }

  predicate LengthsMatch(message: seq<byte>)
    requires |message| >= 10
  {
    FromLe32(message[..4]) == FromBe32(message[6..10])
  }

  lemma RequestLayout(cmd: nat, body: seq<byte>, isAsync: bool)
    requires Request(cmd, body, isAsync).Ok?
    ensures var m := Request(cmd, body, isAsync).value; var total := |body| + 16 + if isAsync then 6 else 0;
      && |m| == total + 4
      && m[..4] == Le32(total) && HasInt4Tag(m, 4) && m[6..10] == Be32(total)
      && HasInt4Tag(m, 10) && m[12..16] == Be32(cmd)
      && m[16..20] == Be32(if isAsync then ASYNC_TID else SYNC_TID)
      && m[20..] == (if isAsync then AsnInt4(ASYNC_TID) else []) + body
  {}

  /** The envelope of a request, byte by byte, and exactly when there is one. */
  lemma RequestBytes(cmd: nat, body: seq<byte>, isAsync: bool)
    ensures var n := |body| + if isAsync then 22 else 16;
      Request(cmd, body, isAsync)
      == if n >= 0x1_0000_0000 || cmd >= 0x1_0000_0000 then Err(StructError)
         else Ok([Low(n), Low(n / 256), Low(n / 65536), Low(n / 16777216)] + ([0x02, 0x04] + Big4(n))
                 + ([0x02, 0x04] + Big4(cmd))
                 + (if isAsync then [0x11, 0, 1, 1] + [0x02, 0x04, 0x11, 0, 1, 1] else [0x11, 0, 1, 0]) + body)
  {
    assert Be32(ASYNC_TID) == [0x11, 0, 1, 1] && Be32(SYNC_TID) == [0x11, 0, 1, 0];
    assert AsnInt4(ASYNC_TID) == [0x02, 0x04, 0x11, 0, 1, 1];
  }

  // A big-endian number in a message.
  function BigAt(m: seq<byte>, at: nat): nat
    requires at + 4 <= |m|
  {
    16777216 * (m[at] as int) + 65536 * (m[at + 1] as int) + 256 * (m[at + 2] as int) + m[at + 3] as int
  }

  // A message with its header and the tags of its two numbers.
  predicate Marked(m: seq<byte>) {
    |m| >= 20 && m[4] == m[10] == 0x02 && m[5] == m[11] == 0x04
  }

  lemma HandledMarked(m: seq<byte>)
    requires Marked(m)
    ensures Handled(m) == Classify(BigAt(m, 16), BigAt(m, 12), m[20..], Decoded(m[20..]))
  {
    assert FromBe32(m[16..20]) == BigAt(m, 16) && FromBe32(m[12..16]) == BigAt(m, 12);
  }

  /** What every message is taken for, by its transaction id, and what of it is kept. */
  lemma MessageMeans(m: seq<byte>, vs: seq<Value>)
    requires Marked(m) && Decoded(m[20..]) == Ok(vs)
    ensures var tid, code := BigAt(m, 16), BigAt(m, 12);
      Handled(m)
      == if tid == 0x1100_0100 then Ok(Message(tid, Response, code, m[20..], vs))
         else if tid / 256 != 0x11_0001 then Ok(Message(tid, Unsolicited, code, m[20..], vs))
         else if code >= 2000 then Ok(Message(tid, AsyncAck, code, m[20..], vs))
         else if vs == [] then Err(IndexError)
         else if vs[0] != Int(tid) then Err(AssertionError)
         else Ok(Message(tid, Response, code, if |m| > 26 then m[26..] else [], vs[1..]))
  {
    HandledMarked(m);
    assert |m| > 26 ==> m[20..][6..] == m[26..];
    assert |m| <= 26 ==> m[20..][Min(6, |m| - 20)..] == [];
  }

  /** Messages without their tags or cut short, and bodies that do not decode. */
  lemma Malformed(m: seq<byte>)
    ensures |m| < 12 || m[4] != 0x02 || m[5] != 0x04 || m[10] != 0x02 || m[11] != 0x04 ==>
              Handled(m) == Err(AssertionError)
    ensures 12 <= |m| < 20 && m[4] == m[10] == 0x02 && m[5] == m[11] == 0x04 ==> Handled(m) == Err(StructError)
    ensures Marked(m) && Decoded(m[20..]).Err? ==> Handled(m) == Err(Decoded(m[20..]).error)
  {
    if Marked(m) {
      HandledMarked(m);
    }
  }

  lemma FourBytes(b: seq<byte>)
    requires |b| == 4
    ensures FromBe(b) == FromBe32(b)
  {
    var c, d := b[..3], b[..2];
    assert c[..2] == d && d[..1] == [b[0]] && [b[0]][..0] == [];
    assert FromBe([b[0]]) == b[0] as int;
    assert FromBe(d) == 256 * FromBe([b[0]]) + b[1] as int;
    assert FromBe(c) == 256 * FromBe(d) + b[2] as int;
  }

  lemma Int4At(n: nat, rest: seq<byte>)
    requires n < 0x1_0000_0000
    ensures IntAt(AsnInt4(n) + rest) == Ok((n, rest))
  {
    var d, b := AsnInt4(n) + rest, Be32(n);
    assert d[2..6] == b && d[6..] == rest;
    FourBytes(b);
    Be32RoundTrip(n);
  }

  lemma Int4Decodes(n: nat, rest: seq<byte>)
    requires n < 0x1_0000_0000
    ensures Decoded(AsnInt4(n) + rest) == Prepend([Int(n)], Decoded(rest))
  {
    Int4At(n, rest);
    DecodedStep(AsnInt4(n) + rest, Int(n), rest);
  }

  function Classify(tid: nat, code: nat, body: seq<byte>, content: Result<seq<Value>>): Result<Message> {
    match content
    case Err(e) => Err(e)
    case Ok(vs) => Classified(tid, code, body, vs)
  }

  lemma HandledIs(m: seq<byte>, tid: nat, code: nat)
    requires |m| >= 20 && HasInt4Tag(m, 4) && HasInt4Tag(m, 10)
    requires m[12..16] == Be32(code) && m[16..20] == Be32(tid) && code < 0x1_0000_0000 && tid < 0x1_0000_0000
    ensures Handled(m) == Classify(tid, code, m[20..], Decoded(m[20..]))
  {
    Be32RoundTrip(tid);
    Be32RoundTrip(code);
  }

  // The message a request amounts to.
  function Echo(cmd: nat, body: seq<byte>, isAsync: bool): Result<Message> {
    match Decoded(body)
    case Err(e) => Err(e)
    case Ok(vs) =>
      if !isAsync then Ok(Message(SYNC_TID, Response, cmd, body, vs))
      else if cmd < 2000 then Ok(Message(ASYNC_TID, Response, cmd, body, vs))
      else Ok(Message(ASYNC_TID, AsyncAck, cmd, AsnInt4(ASYNC_TID) + body, [Int(ASYNC_TID)] + vs))
  }

  /** A request read as a message: for every accepted body the lengths agree, the code and body come back, and it is
      a response exactly if it was synchronous or its code is below 2000; a rejected body is rejected alike. */
  lemma EnvelopeRoundTrip(cmd: nat, body: seq<byte>, isAsync: bool)
    requires Request(cmd, body, isAsync).Ok?
    ensures var m := Request(cmd, body, isAsync).value;
      && |m| == |body| + 20 + (if isAsync then 6 else 0) && LengthsMatch(m)
      && Handled(m) == Echo(cmd, body, isAsync)
  {
    var m := Request(cmd, body, isAsync).value;
    RequestLayout(cmd, body, isAsync);
    var total := |body| + 16 + if isAsync then 6 else 0;
    Le32RoundTrip(total);
    Be32RoundTrip(total);
    if isAsync {
      HandledIs(m, ASYNC_TID, cmd);
      AsyncEcho(cmd, body);
    } else {
      HandledIs(m, SYNC_TID, cmd);
      assert m[20..] == body;
    }
  }

  lemma AsyncEcho(cmd: nat, body: seq<byte>)
    ensures var b := AsnInt4(ASYNC_TID) + body;
      Classify(ASYNC_TID, cmd, b, Decoded(b)) == Echo(cmd, body, true)
  {
    Int4Decodes(ASYNC_TID, body);
    assert (AsnInt4(ASYNC_TID) + body)[6..] == body;
    if Decoded(body).Ok? {
      assert ([Int(ASYNC_TID)] + Decoded(body).value)[1..] == Decoded(body).value;
    }
  }

  // ----- the session

  // attach_allowed: False at first, then whatever the indication carried.
  datatype Attach = Initially | Indicated(v: Value)

  predicate IsAttachInd(m: Message) {
    m.kind == Unsolicited && m.code == ATTACH_ALLOWED_IND
  }

  // handle_unsolicited.
  function Noted(attach: Attach, m: Message): Result<Attach> {
    if m.code != ATTACH_ALLOWED_IND then Ok(attach)
    else if |m.content| <= 2 then Err(IndexError)
    else Ok(Indicated(m.content[2]))
  }

  // pump: what it makes of attach_allowed, and what it returns. Printing decodes the body once more.
  function Pumped(attach: Attach, message: seq<byte>): (Attach, Result<Message>) {
    match Handled(message)
    case Err(e) => (attach, Err(e))
    case Ok(m) =>
      match if m.kind == Unsolicited then Noted(attach, m) else Ok(attach)
      case Err(e) => (attach, Err(e))
      case Ok(attach') => (attach', match Decoded(m.body) case Ok(_) => Ok(m) case Err(e) => Err(e))
  }

  // A message at which execute stops: an exception or a response.
  predicate Stops(message: seq<byte>) {
    var r := Pumped(Initially, message).1;
    r.Err? || r.value.kind == Response
  }

  // The value an attach-allowed indication carries, if the message is one and is long enough.
  function Indication(message: seq<byte>): Option<Value> {
    match Handled(message)
    case Ok(m) => if IsAttachInd(m) && |m.content| > 2 then Some(m.content[2]) else None
    case Err(_) => None
  }

  // attach_allowed after a number of messages, looking back for the last indication.
  function LastAttach(attach: Attach, messages: seq<seq<byte>>): Attach {
    if messages == [] then attach
    else
      var n := |messages| - 1;
      if Indication(messages[n]).Some? then Indicated(Indication(messages[n]).value)
      else LastAttach(attach, messages[..n])
  }

  // attach_allowed as pump after pump leaves it.
  function AfterPumps(attach: Attach, messages: seq<seq<byte>>): Attach
    decreases |messages|
  {
    if messages == [] then attach else AfterPumps(Pumped(attach, messages[0]).0, messages[1..])
  }

  ghost predicate NoneBehind(messages: seq<seq<byte>>, j: nat) {
    forall i :: j < i < |messages| ==> Indication(messages[i]).None?
  }

  /** After any messages, attach_allowed is what the last indication among them carried, or what it was before. */
  lemma {:induction false} AttachFollowsIndications(attach: Attach, messages: seq<seq<byte>>)
    ensures AfterPumps(attach, messages) == LastAttach(attach, messages)
    ensures (forall m :: m in messages ==> Indication(m).None?) ==> LastAttach(attach, messages) == attach
    ensures forall j :: 0 <= j < |messages| && Indication(messages[j]).Some? && NoneBehind(messages, j)
                        ==> LastAttach(attach, messages) == Indicated(Indication(messages[j]).value)
    decreases |messages|
  {
    if messages != [] {
      var n := |messages| - 1;
      AfterPumpsSnoc(attach, messages[..n], messages[n]);
      assert messages == messages[..n] + [messages[n]];
      AttachFollowsIndications(attach, messages[..n]);
      PumpedMeans(LastAttach(attach, messages[..n]), messages[n]);
      LastAttachSnoc(attach, messages[..n], messages[n]);
      forall j | 0 <= j < |messages| && Indication(messages[j]).Some? && NoneBehind(messages, j)
        ensures LastAttach(attach, messages) == Indicated(Indication(messages[j]).value)
      {
        if j < n {
          assert Indication(messages[n]).None?;
          assert messages[..n][j] == messages[j] && NoneBehind(messages[..n], j);
        }
      }
    }
  }

  lemma {:induction false} AfterPumpsSnoc(attach: Attach, messages: seq<seq<byte>>, message: seq<byte>)
    ensures AfterPumps(attach, messages + [message]) == Pumped(AfterPumps(attach, messages), message).0
    decreases |messages|
  {
    if messages == [] {
      assert ([] + [message])[1..] == [];
    } else {
      assert (messages + [message])[1..] == messages[1..] + [message];
      AfterPumpsSnoc(Pumped(attach, messages[0]).0, messages[1..], message);
    }
  }

  lemma PumpedMeans(attach: Attach, message: seq<byte>)
    ensures Pumped(attach, message).1 == Pumped(Initially, message).1
    ensures Pumped(attach, message).0 == LastAttach(attach, [message])
  {
    assert [message][..0] == [];
  }

  lemma LastAttachSnoc(attach: Attach, messages: seq<seq<byte>>, message: seq<byte>)
    ensures LastAttach(attach, messages + [message]) == LastAttach(LastAttach(attach, messages), [message])
  {
    assert (messages + [message])[..|messages|] == messages;
    assert [message][..0] == [];
  }

  lemma LastAttachStep(attach: Attach, messages: seq<seq<byte>>, i: nat)
    requires i < |messages|
    ensures LastAttach(attach, messages[..i + 1]) == LastAttach(LastAttach(attach, messages[..i]), [messages[i]])
  {
    LastAttachSnoc(attach, messages[..i], messages[i]);
    assert messages[..i + 1] == messages[..i] + [messages[i]];
  }

  lemma AfterOne(attach: Attach, m: seq<byte>)
    ensures AfterPumps(attach, [m]) == Pumped(attach, m).0
  {
    assert [m][1..] == [];
  }

  /** A message with any other transaction id is unsolicited: execute reads on, unless it is the attach-allowed
      indication with fewer than three values, which raises. Otherwise that indication, and it alone, is noted. */
  lemma UnsolicitedMeans(m: seq<byte>, vs: seq<Value>, attach: Attach)
    requires Marked(m) && Decoded(m[20..]) == Ok(vs) && BigAt(m, 16) / 256 != 0x11_0001
    ensures Handled(m) == Ok(Message(BigAt(m, 16), Unsolicited, BigAt(m, 12), m[20..], vs))
    ensures Stops(m) <==> BigAt(m, 12) == 0x06c && |vs| <= 2
    ensures BigAt(m, 12) == 0x06c && |vs| <= 2 ==> Pumped(attach, m) == (attach, Err(IndexError))
    ensures BigAt(m, 12) == 0x06c && |vs| > 2 ==>
              AfterPumps(attach, [m]) == Indicated(vs[2]) && Indication(m) == Some(vs[2])
    ensures BigAt(m, 12) != 0x06c ==> AfterPumps(attach, [m]) == attach && Indication(m) == None
  {
    MessageMeans(m, vs);
    AfterOne(attach, m);
  }

  /** A response ends the wait and is what execute returns; an acknowledgement does not. Neither touches the flag. */
  lemma AnswerMeans(m: seq<byte>, vs: seq<Value>, attach: Attach)
    requires Marked(m) && Decoded(m[20..]) == Ok(vs) && BigAt(m, 16) / 256 == 0x11_0001
    ensures AfterPumps(attach, [m]) == attach && Indication(m) == None
    ensures Stops(m) <==> BigAt(m, 16) == 0x1100_0100 || BigAt(m, 12) < 2000
    ensures var tid, code, rest, r := BigAt(m, 16), BigAt(m, 12), if |m| > 26 then m[26..] else [], Pumped(attach, m).1;
      if tid == 0x1100_0100 then r == Ok(Message(tid, Response, code, m[20..], vs))
      else if code >= 2000 then r == Ok(Message(tid, AsyncAck, code, m[20..], vs))
      else if vs == [] then r == Err(IndexError)
      else if vs[0] != Int(tid) then r == Err(AssertionError)
      else if Decoded(rest).Ok? then r == Ok(Message(tid, Response, code, rest, vs[1..]))
      else r == Err(Decoded(rest).error)
  {
    MessageMeans(m, vs);
    AfterOne(attach, m);
  }

  // How many messages execute reads before it would block.
  function ReadUntilStop(messages: seq<seq<byte>>): (k: nat)
    ensures k <= |messages|
    ensures forall i :: 0 <= i < k - 1 ==> !Stops(messages[i])
    ensures k < |messages| ==> k > 0 && Stops(messages[k - 1])
  {
    if messages == [] then 0
    else if Stops(messages[0]) then 1
    else 1 + ReadUntilStop(messages[1..])
  }

  // What execute returns: the message that stopped it, or nothing yet.
  function Awaited(messages: seq<seq<byte>>): Option<Result<Message>> {
    var k := ReadUntilStop(messages);
    if k > 0 && Stops(messages[k - 1]) then Some(Pumped(Initially, messages[k - 1]).1) else None
  }

  class XMMRPC {
    // What the device will deliver, one message a read, and what was written to it.
    var incoming: seq<seq<byte>>
    var sent: seq<seq<byte>>
    var attachAllowed: Attach

    constructor (incoming: seq<seq<byte>>)
      ensures this.incoming == incoming && sent == [] && attachAllowed == Initially
    {
      this.incoming, sent, attachAllowed := incoming, [], Initially;
    }

    method HandleUnsolicited(m: Message) returns (r: Result<()>)
      modifies this`attachAllowed
      ensures match Noted(old(attachAllowed), m)
              case Ok(a) => r == Ok(()) && attachAllowed == a
              case Err(e) => r == Err(e) && attachAllowed == old(attachAllowed)
    {
      if m.code == ATTACH_ALLOWED_IND {
        if |m.content| <= 2 {
          return Err(IndexError);
        }
        attachAllowed := Indicated(m.content[2]);
      }
      r := Ok(());
    }

    method Pump() returns (r: Result<Message>)
      requires incoming != []
      modifies this`incoming, this`attachAllowed
      ensures (attachAllowed, r) == Pumped(old(attachAllowed), old(incoming)[0])
      ensures incoming == old(incoming)[1..]
    {
      var message := incoming[0];
      incoming := incoming[1..];
      var handled := Handled(message);
      if handled.Err? {
        return Err(handled.error);
      }
      var m := handled.value;
      if m.kind == Unsolicited {
        var noted := HandleUnsolicited(m);
        if noted.Err? {
          return Err(noted.error);
        }
      }
      var printed := RpcMessages.UnpackUnknown(m.body);
      if printed.Err? {
        return Err(printed.error);
      }
      r := Ok(m);
    }

    // One pass of the loop in execute, told without reference to the state before.
    method PumpOnce() returns (r: Result<Message>, stop: bool)
      requires incoming != []
      modifies this`incoming, this`attachAllowed
      ensures incoming == old(incoming)[1..] && stop == Stops(old(incoming)[0])
      ensures r == Pumped(Initially, old(incoming)[0]).1
      ensures attachAllowed == LastAttach(old(attachAllowed), [old(incoming)[0]])
    {
      PumpedMeans(attachAllowed, incoming[0]);
      r := Pump();
      stop := r.Err? || r.value.kind == Response;
    }

    method Await() returns (r: Option<Result<Message>>)
      modifies this`incoming, this`attachAllowed
      ensures Ended(old(incoming), old(attachAllowed), incoming, attachAllowed, r)
    {
      ghost var all, i, attach := incoming, 0, attachAllowed;
      assert all[0..] == all;
      while incoming != []
        invariant 0 <= i <= |all| && incoming == all[i..]
        invariant Quiet(all, i)
        invariant attachAllowed == LastAttach(attach, all[..i])
        decreases |incoming|
      {
        LastAttachStep(attach, all, i);
        var resp, stop := PumpOnce();
        i := i + 1;
        if stop {
          AwaitedAt(all, i);
          return Some(resp);
        }
      }
      AwaitedNever(all);
      r := None;
    }

    /** execute reads exactly up to the first response (or exception) and returns it; None is a read that blocks. */
    method Execute(cmd: nat, body: seq<byte>, isAsync: bool) returns (r: Option<Result<Message>>)
      modifies this
      ensures var request, k := Request(cmd, body, isAsync), ReadUntilStop(old(incoming));
        if request.Err? then r == Some(Err(request.error)) && unchanged(this)
        else
          && sent == old(sent) + [request.value]
          && incoming == old(incoming)[k..]
          && attachAllowed == LastAttach(old(attachAllowed), old(incoming)[..k])
          && r == Awaited(old(incoming))
    {
      var request := Request(cmd, body, isAsync);
      if request.Err? {
        return Some(Err(request.error));
      }
      sent := sent + [request.value];
      r := Await();
    }
  }

  // What is left unread, what became of attach_allowed, and what execute returns.
  ghost predicate Ended(all: seq<seq<byte>>, before: Attach, left: seq<seq<byte>>, after: Attach,
                        r: Option<Result<Message>>) {
    var k := ReadUntilStop(all);
    left == all[k..] && after == LastAttach(before, all[..k]) && r == Awaited(all)
  }

  ghost predicate Quiet(messages: seq<seq<byte>>, i: nat)
    requires i <= |messages|
  {
    forall j :: 0 <= j < i ==> !Stops(messages[j])
  }

  lemma QuietTail(messages: seq<seq<byte>>, k: nat)
    requires 0 < k <= |messages| && Quiet(messages, k)
    ensures Quiet(messages[1..], k - 1)
  {
    forall j | 0 <= j < k - 1 ensures !Stops(messages[1..][j]) {
      assert messages[1..][j] == messages[j + 1];
    }
  }

  lemma {:induction false} FirstStop(messages: seq<seq<byte>>, k: nat)
    requires k <= |messages| && (k > 0 ==> Quiet(messages, k - 1))
    requires k < |messages| ==> k > 0 && Stops(messages[k - 1])
    ensures ReadUntilStop(messages) == k
  {
    if k > 1 {
      assert !Stops(messages[0]);
      QuietTail(messages, k - 1);
      assert messages[1..][k - 2] == messages[k - 1];
      FirstStop(messages[1..], k - 1);
    }
  }

  lemma AwaitedAt(messages: seq<seq<byte>>, k: nat)
    requires 0 < k <= |messages| && Quiet(messages, k - 1) && Stops(messages[k - 1])
    ensures ReadUntilStop(messages) == k && Awaited(messages) == Some(Pumped(Initially, messages[k - 1]).1)
  {
    FirstStop(messages, k);
  }

  lemma AwaitedNever(messages: seq<seq<byte>>)
    requires Quiet(messages, |messages|)
    ensures ReadUntilStop(messages) == |messages| && Awaited(messages) == None
  {
    assert |messages| > 0 ==> !Stops(messages[|messages| - 1]);
    FirstStop(messages, |messages|);
    assert messages[..|messages|] == messages;
  }
}
