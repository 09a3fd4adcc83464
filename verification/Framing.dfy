/** Messages and raw data on one link: what the server writes and how the client takes it apart again. */
module Framing {
  import opened Bytes
  import opened Buffers
  import opened Hex

  const OPEN: Byte := 0x7b
  const CLOSE: Byte := 0x7d
  const CLOSE_COMMAND: Byte := 0x21

  /** Ends a connection; the command parser starts afresh on it. */
  const END_OF_FILE: Byte := 0xff

  /** Bytes of a hash sent with a message, and their digits. */
  const MSG_HASH_BYTE_SIZE: nat := 4
  const MSG_HASH_SIZE: nat := 8

  const COUNTS: nat := 0x1_0000_0000

  type Hash = seq<Byte> -> seq<Byte>

  /** The bytes that make an opening brace the start of a message. */
  predicate StartsMessage(b: Byte) {
    b in {CLOSE, 0x40, 0x2e, 0x3a, 0x5e, 0x3d, 0x27, 0x23, 0x3f, 0x2a, CLOSE_COMMAND, 0x2b, 0x2c, 0x3b}
  }

  function Long(n: nat): seq<Byte> {
    [n / 0x1000000 % 256, n / 0x10000 % 256, n / 0x100 % 256, n % 256]
  }

  /** The part of a hash that is sent. */
  function FirstFour(digest: seq<Byte>): (tag: seq<Byte>)
    ensures |tag| == MSG_HASH_BYTE_SIZE
  {
    if |digest| < MSG_HASH_BYTE_SIZE then [0, 0, 0, 0] else digest[..MSG_HASH_BYTE_SIZE]
  }

  /** A message is hashed with its count and the challenge of the connection. */
  function Tag(h: Hash, msg: seq<Byte>, count: nat, challenge: seq<Byte>): (tag: seq<Byte>)
    ensures |tag| == MSG_HASH_BYTE_SIZE
  {
    FirstFour(h(msg + Long(count) + challenge))
  }

  function NextCount(n: nat): (r: nat)
    ensures r < COUNTS
  {
    (n + 1) % COUNTS
  }

  datatype Place = Waiting | Started | InMsg

  // ---- the server's output ----

  datatype Sender = Sender(authorized: bool, noPassword: bool, rawOnLink: bool, challenge: seq<Byte>,
                           place: Place, hashed: seq<Byte>, outMsgCount: nat)

  function RawOut(s: Sender, b: Byte): seq<Byte> {
    if s.rawOnLink then [b] else []
  }

  /** A byte of a message; the closing brace is followed by the digits of the hash. */
  function WriteInMsg(h: Hash, s: Sender, b: Byte): (Sender, seq<Byte>) {
    if s.noPassword then (s.(place := if b == CLOSE then Waiting else InMsg), [b])
    else
      var hashed := s.hashed + [b];
      if b != CLOSE then (s.(place := InMsg, hashed := hashed), [b])
      else
        (s.(place := Waiting, hashed := hashed, outMsgCount := NextCount(s.outMsgCount)),
         [b] + HexChars(Tag(h, hashed, s.outMsgCount, s.challenge)))
  }

  /** What one byte of output makes the server send. An opening brace is held back until the next byte shows whether it
      starts a message. */
  function WriteByte(h: Hash, s: Sender, b: Byte): (Sender, seq<Byte>) {
    if !s.authorized then (s, [])
    else
      match s.place
      case Waiting => if b == OPEN then (s.(place := Started), []) else (s, RawOut(s, b))
      case Started =>
        if StartsMessage(b) then
          var w := WriteInMsg(h, s.(hashed := if s.noPassword then s.hashed else [OPEN]), b);
          (w.0, [OPEN] + w.1)
        else if b == OPEN then (s, RawOut(s, OPEN))
        else (s.(place := Waiting), RawOut(s, OPEN) + RawOut(s, b))
      case InMsg => WriteInMsg(h, s, b)
  }

  function WriteAll(h: Hash, s: Sender, w: seq<Byte>): (Sender, seq<Byte>)
    decreases |w|
  {
    if w == [] then (s, [])
    else
      var first := WriteByte(h, s, w[0]);
      var rest := WriteAll(h, first.0, w[1..]);
      (rest.0, first.1 + rest.1)
  }

  // ---- the client's input ----

  datatype Receiver = Receiver(noPassword: bool, challenge: seq<Byte>, place: Place, hashed: seq<Byte>, inMsgCount: nat,
                               collecting: bool, digits: seq<Byte>, expected: seq<Byte>,
                               temp: Buffer, rx: Buffer, raw: Buffer, closingIn: bool, closingOut: bool, closed: bool)

  function Closed(c: Receiver): Receiver {
    c.(place := Waiting, inMsgCount := 0, collecting := false, digits := [], temp := c.temp.Cleared(), rx := c.rx.Cleared(), raw := c.raw.Cleared(),
       closingIn := false, closingOut := false, closed := true)
  }

  function ClosedWithEOF(c: Receiver): Receiver {
    Closed(c).(rx := Closed(c).rx.Put(END_OF_FILE))
  }

  /** As many bytes as there is room for. */
  function PutAll(b: Buffer, bytes: seq<Byte>): Buffer
    decreases |bytes|
  {
    if bytes == [] then b else PutAll(b.Put(bytes[0]), bytes[1..])
  }

  /** The message has been accepted: it becomes readable. */
  function Accept(c: Receiver): Receiver {
    c.(rx := PutAll(c.rx, c.temp.bytes), temp := c.temp.Cleared())
  }

  function Collect(c: Receiver, b: Byte): Receiver {
    var digits := c.digits + [b];
    if |digits| < MSG_HASH_SIZE then c.(digits := digits)
    else if HexBytes(digits, MSG_HASH_BYTE_SIZE) == c.expected then
      var c := Accept(c.(digits := [], collecting := false)).(inMsgCount := NextCount(c.inMsgCount));
      if c.closingOut then Closed(c) else c
    else ClosedWithEOF(c)
  }

  function ReadInMsg(h: Hash, c: Receiver, b: Byte): Receiver {
    var c := c.(temp := c.temp.Put(b), hashed := if c.noPassword then c.hashed else c.hashed + [b], place := InMsg);
    if b != CLOSE then c
    else
      var c := c.(place := Waiting);
      if c.noPassword then Accept(c)
      else c.(collecting := true, digits := [], expected := Tag(h, c.hashed, c.inMsgCount, c.challenge))
  }

  /** One byte from the link, once authorised. */
  function ReadByte(h: Hash, c: Receiver, b: Byte): Receiver {
    if c.closed then c
    else if b == END_OF_FILE then ClosedWithEOF(c)
    else if c.collecting && !c.noPassword then Collect(c, b)
    else
      match c.place
      case Waiting =>
        var c := c.(temp := c.temp.Cleared());
        if b == OPEN then c.(place := Started) else c.(raw := c.raw.Put(b))
      case Started =>
        if StartsMessage(b) then
          ReadInMsg(h, c.(closingIn := c.closingIn || b == CLOSE_COMMAND, hashed := if c.noPassword then c.hashed else [OPEN],
                          temp := c.temp.Put(OPEN)), b)
        else if b == OPEN then c.(raw := c.raw.Put(OPEN))
        else c.(place := Waiting, raw := c.raw.Put(OPEN).Put(b))
      case InMsg => ReadInMsg(h, c, b)
  }

  function ReadAll(h: Hash, c: Receiver, bytes: seq<Byte>): Receiver
    decreases |bytes|
  {
    if bytes == [] then c else ReadAll(h, ReadByte(h, c, bytes[0]), bytes[1..])
  }

  // ---- what a string of bytes means ----

  /** The messages in a string, the bytes between them, and what is left open at its end: an opening brace that may start
      a message, or a message without its closing brace. */
  datatype Parts = Parts(messages: seq<seq<Byte>>, others: seq<Byte>, open: seq<Byte>)

  /** The position of the first closing brace; the length if there is none. */
  function FindClose(w: seq<Byte>): (n: nat)
    ensures n <= |w| && (forall i :: 0 <= i < n ==> w[i] != CLOSE) && (n < |w| ==> w[n] == CLOSE)
  {
    if w == [] || w[0] == CLOSE then 0 else FindClose(w[1..]) + 1
  }

  /** A message is an opening brace, a byte that may start a message, and everything up to the first closing brace. */
  function Cut(w: seq<Byte>): Parts
    decreases |w|
  {
    if w == [] then Parts([], [], [])
    else if w[0] == OPEN && (|w| == 1 || (StartsMessage(w[1]) && FindClose(w) == |w|)) then Parts([], [], w)
    else if w[0] == OPEN && StartsMessage(w[1]) then
      var n := FindClose(w) + 1;
      var rest := Cut(w[n..]);
      rest.(messages := [w[..n]] + rest.messages)
    else
      var rest := Cut(w[1..]);
      rest.(others := [w[0]] + rest.others)
  }

  function Flatten(messages: seq<seq<Byte>>): seq<Byte> {
    if messages == [] then [] else messages[0] + Flatten(messages[1..])
  }
}
