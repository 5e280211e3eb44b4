/** Titles and frames on the server's side of the pipe: a tag, a little-endian u32 length
  * and the payload. A frame's payload is its PNG bytes.
  */
module FrameStream {
  import opened Options
  import opened Utf8
  import opened Wire

  const WIRE_FRAME: byte := 1
  const WIRE_TITLE: byte := 2
  const HEAD: nat := 5
  const MAX_PAYLOAD: nat := 0x400_0000

  datatype Message = Title(text: seq<byte>) | Frame(png: seq<byte>)

  function Payload(message: Message): seq<byte> {
    match message
    case Title(text) => text
    case Frame(png) => png
  }

  function Tag(message: Message): byte {
    if message.Title? then WIRE_TITLE else WIRE_FRAME
  }

  function Encoded(message: Message): seq<byte> {
    [Tag(message)] + ToLe(|Payload(message)|, 4) + Payload(message)
  }

  class Sink {
    var written: seq<byte>

    constructor ()
      ensures written == []
    {
      written := [];
    }

    /** Write one message. A payload whose length is no u32 fails after its tag is out. */
    method Write(message: Message) returns (complete: bool)
      modifies this
      ensures complete <==> |Payload(message)| < U32
      ensures written == old(written) + if complete then Encoded(message) else [Tag(message)]
    {
      written := written + [Tag(message)];
      if |Payload(message)| >= U32 {
        return false;
      }
      written := written + ToLe(|Payload(message)|, 4);
      written := written + Payload(message);
      assert written == old(written) + Encoded(message);
      return true;
    }
  }

  datatype StreamError = UnknownType | TooLarge | Truncated | TitleNotUtf8

  datatype Read =
    | Got(frame: seq<byte>, title: seq<byte>, rest: seq<byte>)
    | Ended(title: seq<byte>)
    | Broken(error: StreamError, title: seq<byte>)

  function LengthIn(bytes: seq<byte>): nat
    requires HEAD <= |bytes|
  {
    FromLe(bytes[1..HEAD])
  }

  /** The next frame of a stream, with every title before it taken over. */
  function NextFrame(bytes: seq<byte>, title: seq<byte>): (read: Read)
    ensures read.Got? ==> |read.rest| < |bytes|
    decreases |bytes|
  {
    if |bytes| < HEAD then Ended(title)
    else if bytes[0] != WIRE_FRAME && bytes[0] != WIRE_TITLE then Broken(UnknownType, title)
    else if LengthIn(bytes) > MAX_PAYLOAD then Broken(TooLarge, title)
    else if |bytes| < HEAD + LengthIn(bytes) then Broken(Truncated, title)
    else
      var payload, rest := bytes[HEAD..HEAD + LengthIn(bytes)], bytes[HEAD + LengthIn(bytes)..];
      if bytes[0] == WIRE_FRAME then Got(payload, title, rest)
      else if !Valid(payload) then Broken(TitleNotUtf8, title)
      else NextFrame(rest, payload)
  }

  class SharedTitle {
    var text: seq<byte>

    constructor (text: seq<byte>)
      ensures this.text == text
    {
      this.text := text;
    }
  }

  /** Read until a frame is complete; None when the stream ends between messages. */
  method ReadFrame(input: Pipe, title: SharedTitle) returns (outcome: Result<Option<seq<byte>>, StreamError>)
    modifies input, title
    ensures
      match NextFrame(old(input.unread), old(title.text))
      case Got(frame, shown, rest) => outcome == Ok(Some(frame)) && title.text == shown && input.unread == rest
      case Ended(shown) => outcome == Ok(None) && title.text == shown
      case Broken(error, shown) => outcome == Err(error) && title.text == shown
  {
    while true
      invariant NextFrame(input.unread, title.text) == NextFrame(old(input.unread), old(title.text))
      decreases |input.unread|
    {
      ghost var bytes := input.unread;
      var head := input.ReadExact(HEAD);
      if head.None? {
        return Ok(None);
      }
      assert head.value == bytes[..HEAD] && head.value[1..HEAD] == bytes[1..HEAD];
      if head.value[0] != WIRE_FRAME && head.value[0] != WIRE_TITLE {
        return Err(UnknownType);
      }
      var length := FromLe(head.value[1..HEAD]);
      if length > MAX_PAYLOAD {
        return Err(TooLarge);
      }
      var payload := input.ReadExact(length);
      if payload.None? {
        return Err(Truncated);
      }
      assert payload.value == bytes[HEAD..HEAD + length];
      if head.value[0] == WIRE_FRAME {
        return Ok(Some(payload.value));
      }
      if !Valid(payload.value) {
        return Err(TitleNotUtf8);
      }
      title.text := payload.value;
    }
  }

  datatype Shown = Shown(frame: seq<byte>, title: seq<byte>)

  /** Every frame a client shows from a stream, each with the title it shows then. */
  function Frames(bytes: seq<byte>, title: seq<byte>): seq<Shown>
    decreases |bytes|
  {
    var read := NextFrame(bytes, title);
    if read.Got? then [Shown(read.frame, read.title)] + Frames(read.rest, read.title) else []
  }

  /** How the stream ends. */
  function End(bytes: seq<byte>, title: seq<byte>): Read
    decreases |bytes|
  {
    var read := NextFrame(bytes, title);
    if read.Got? then End(read.rest, read.title) else read
  }

  function EncodeAll(messages: seq<Message>): seq<byte> {
    if messages == [] then [] else Encoded(messages[0]) + EncodeAll(messages[1..])
  }

  /** The frames sent, each with the last title sent before it. */
  function Sent(messages: seq<Message>, title: seq<byte>): seq<Shown> {
    if messages == [] then []
    else match messages[0]
      case Title(text) => Sent(messages[1..], text)
      case Frame(png) => [Shown(png, title)] + Sent(messages[1..], title)
  }

  function LastTitle(messages: seq<Message>, title: seq<byte>): seq<byte> {
    if messages == [] then title
    else LastTitle(messages[1..], if messages[0].Title? then messages[0].text else title)
  }

  predicate Sendable(message: Message) {
    |Payload(message)| <= MAX_PAYLOAD && (message.Title? ==> Valid(message.text))
  }

  lemma HeadReadsBack(message: Message, rest: seq<byte>)
    requires |Payload(message)| < U32
    ensures var bytes := Encoded(message) + rest;
      && HEAD <= |bytes| && bytes[0] == Tag(message) && LengthIn(bytes) == |Payload(message)|
      && |bytes| == HEAD + |Payload(message)| + |rest|
      && bytes[HEAD..HEAD + |Payload(message)|] == Payload(message)
      && bytes[HEAD + |Payload(message)|..] == rest
  {
    var bytes := Encoded(message) + rest;
    assert bytes[1..HEAD] == ToLe(|Payload(message)|, 4);
    WordSizes();
    LeReadsBack(|Payload(message)|, 4);
  }

  /** A frame the server can write is read back exactly when its payload is at most 64 MiB. */
  lemma FrameReadsBackExactlyWhen(png: seq<byte>, rest: seq<byte>, title: seq<byte>)
    requires |png| < U32
    ensures NextFrame(Encoded(Frame(png)) + rest, title) == Got(png, title, rest) <==> |png| <= MAX_PAYLOAD
    ensures |png| > MAX_PAYLOAD ==> NextFrame(Encoded(Frame(png)) + rest, title) == Broken(TooLarge, title)
  {
    HeadReadsBack(Frame(png), rest);
  }

  lemma TitleReadsOn(text: seq<byte>, rest: seq<byte>, title: seq<byte>)
    requires Sendable(Title(text))
    ensures NextFrame(Encoded(Title(text)) + rest, title) == NextFrame(rest, text)
  {
    HeadReadsBack(Title(text), rest);
  }

  /** Any titles and frames within the limit come back as exactly those frames, in order,
    * each under the last title before it, and then the end of the stream.
    */
  lemma {:induction false} StreamReadsBack(messages: seq<Message>, title: seq<byte>)
    requires forall message :: message in messages ==> Sendable(message)
    ensures Frames(EncodeAll(messages), title) == Sent(messages, title)
    ensures End(EncodeAll(messages), title) == Ended(LastTitle(messages, title))
  {
    if messages != [] {
      var rest := EncodeAll(messages[1..]);
      assert messages[0] in messages;
      match messages[0]
      case Title(text) =>
        StreamReadsBack(messages[1..], text);
        TitleReadsOn(text, rest, title);
      case Frame(png) =>
        StreamReadsBack(messages[1..], title);
        FrameReadsBackExactlyWhen(png, rest, title);
    }
  }

  /** What the server can write: a length that is a u32, and titles that are strings. */
  predicate Writable(message: Message) {
    |Payload(message)| < U32 && (message.Title? ==> Valid(message.text))
  }

  /** The first message over the limit, frame or title, ends the stream: what was sent before
    * it is shown, and nothing after it.
    */
  lemma {:induction false} OversizedEndsStream(messages: seq<Message>, k: nat, title: seq<byte>)
    requires k < |messages| && forall i :: 0 <= i < k ==> Sendable(messages[i])
    requires MAX_PAYLOAD < |Payload(messages[k])| < U32
    ensures Frames(EncodeAll(messages), title) == Sent(messages[..k], title)
    ensures End(EncodeAll(messages), title) == Broken(TooLarge, LastTitle(messages[..k], title))
  {
    var rest := EncodeAll(messages[1..]);
    if k == 0 {
      HeadReadsBack(messages[0], rest);
    } else {
      assert messages[..k][1..] == messages[1..][..k - 1];
      assert forall i :: 0 <= i < k - 1 ==> messages[1..][i] == messages[i + 1];
      match messages[0]
      case Title(text) =>
        OversizedEndsStream(messages[1..], k - 1, text);
        TitleReadsOn(text, rest, title);
      case Frame(png) =>
        OversizedEndsStream(messages[1..], k - 1, title);
        FrameReadsBackExactlyWhen(png, rest, title);
    }
  }

  lemma {:induction false} FirstOversized(messages: seq<Message>) returns (k: nat)
    requires exists message :: message in messages && !Sendable(message)
    ensures k < |messages| && !Sendable(messages[k]) && forall i :: 0 <= i < k ==> Sendable(messages[i])
  {
    if !Sendable(messages[0]) {
      k := 0;
    } else {
      k := FirstOversized(messages[1..]);
      k := k + 1;
    }
  }

  /** Whatever the server writes comes back in full, to the end of the stream, exactly when
    * no payload is over 64 MiB.
    */
  lemma StreamReadsBackExactlyWhen(messages: seq<Message>, title: seq<byte>)
    requires forall message :: message in messages ==> Writable(message)
    ensures Frames(EncodeAll(messages), title) == Sent(messages, title) && End(EncodeAll(messages), title).Ended?
      <==> forall message :: message in messages ==> |Payload(message)| <= MAX_PAYLOAD
  {
    if forall message :: message in messages ==> |Payload(message)| <= MAX_PAYLOAD {
      StreamReadsBack(messages, title);
    } else {
      var large :| large in messages && MAX_PAYLOAD < |Payload(large)|;
      assert !Sendable(large);
      var k := FirstOversized(messages);
      assert messages[k] in messages;
      OversizedEndsStream(messages, k, title);
    }
  }

  /** What is read from a stream cut `missing` bytes short, against the whole stream. */
  ghost predicate AgreesUntilCut(short: Read, whole: Read, missing: nat) {
    && (short.Got? ==>
          && whole.Got? && short.frame == whole.frame && short.title == whole.title
          && |whole.rest| >= missing && short.rest == whole.rest[..|whole.rest| - missing])
    && (short.Broken? && short.error != Truncated ==> whole == short)
  }

  lemma CutHead(bytes: seq<byte>, cut: nat)
    requires HEAD <= cut <= |bytes|
    ensures bytes[..cut][0] == bytes[0] && LengthIn(bytes[..cut]) == LengthIn(bytes)
    ensures var end := HEAD + LengthIn(bytes);
      end <= cut ==> bytes[..cut][HEAD..end] == bytes[HEAD..end] && bytes[..cut][end..] == bytes[end..][..cut - end]
  {
    assert bytes[..cut][1..HEAD] == bytes[1..HEAD];
  }

  /** Reading a cut stream agrees with reading the whole one until the cut shows. */
  lemma {:induction false} CutShowsAtMostOnce(bytes: seq<byte>, cut: nat, title: seq<byte>)
    requires cut <= |bytes|
    ensures AgreesUntilCut(NextFrame(bytes[..cut], title), NextFrame(bytes, title), |bytes| - cut)
    decreases |bytes|
  {
    if HEAD <= cut {
      CutHead(bytes, cut);
      var end := HEAD + LengthIn(bytes);
      if end <= cut {
        CutShowsAtMostOnce(bytes[end..], cut - end, bytes[HEAD..end]);
      }
    }
  }

  /** A stream cut anywhere shows a prefix of the frames the whole stream shows. */
  lemma {:induction false} CutStreamShowsAPrefix(bytes: seq<byte>, cut: nat, title: seq<byte>)
    requires cut <= |bytes|
    ensures Frames(bytes[..cut], title) <= Frames(bytes, title)
    ensures End(bytes[..cut], title).Broken? && End(bytes[..cut], title).error != Truncated ==>
      End(bytes[..cut], title) == End(bytes, title)
    decreases |bytes|
  {
    CutShowsAtMostOnce(bytes, cut, title);
    var short, whole := NextFrame(bytes[..cut], title), NextFrame(bytes, title);
    if short.Got? {
      CutStreamShowsAPrefix(whole.rest, |whole.rest| - (|bytes| - cut), short.title);
    }
  }

  /** A connection lost in mid-stream: the client has shown the first frames sent, and the
    * stream ends between messages or in the middle of one, never in another error.
    */
  lemma LostConnectionShowsFirstFrames(messages: seq<Message>, cut: nat, title: seq<byte>)
    requires forall message :: message in messages ==> Sendable(message)
    requires cut <= |EncodeAll(messages)|
    ensures Frames(EncodeAll(messages)[..cut], title) <= Sent(messages, title)
    ensures var end := End(EncodeAll(messages)[..cut], title); end.Ended? || (end.Broken? && end.error == Truncated)
  {
    StreamReadsBack(messages, title);
    CutStreamShowsAPrefix(EncodeAll(messages), cut, title);
    EndIsNoFrame(EncodeAll(messages)[..cut], title);
  }

  lemma {:induction false} EndIsNoFrame(bytes: seq<byte>, title: seq<byte>)
    ensures !End(bytes, title).Got?
    decreases |bytes|
  {
    var read := NextFrame(bytes, title);
    if read.Got? {
      EndIsNoFrame(read.rest, read.title);
    }
  }
}
