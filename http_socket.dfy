/** The framer of a connection (http_socket.hpp): receive_message reads from
    the socket into a growing byte buffer until one whole request has
    arrived, then parses it into the socket's request object.

    read and poll are replaced by a sequence of input events. One loop
    iteration of receive_message is the function Step over an abstract
    machine state; Run iterates it, and the method ReceiveMessage of the
    class Socket is proved to compute Run on its array. */
module HttpSocket {
  import opened Common
  import opened HttpMessage

  /** SOCKET_STARTING_BUFFER_SIZE: 4 KB, as the constructor's comment says. */
  const StartingBufferSize: nat := 4096

  /** (size_t)-1, the "not known yet" value of expected_size. */
  const SizeMax: nat := 0xFFFF_FFFF_FFFF_FFFF
  const Two64: nat := 0x1_0000_0000_0000_0000

  /** What one call of read (and, after EAGAIN, poll) yields. Data([]) is
      a read that returns 0, like Closed. */
  datatype ReadResult =
    | Data(bytes: seq<byte>)      // read returns these bytes (or a prefix of them)
    | Again(pollResult: int)      // read fails with EAGAIN; poll then returns pollResult
    | Failure                     // read fails with another errno
    | Closed                      // read returns 0: the peer closed the connection

  /** How one loop iteration ends. */
  datatype Stop =
    | Running                     // loop again (if mss_size < expected_size)
    | Failed                      // return -1 from inside the loop
    | Finished(eof: bool)         // break, or the loop condition failed
    | OutOfInput                  // the model's input is used up: read would block

  /** Which reading of Content-Length the framer applies: the digit loop
      as written, or the decimal value it is evidently meant to read (see
      IntendedContentEnd). The class Socket runs the loop as written. */
  datatype Reading = AsWritten | Intended

  /** What receive_message returns. */
  datatype Outcome =
    | Returned(code: int)
    | Blocked                     // still waiting for input
    | Undefined                   // parse would read past the end of a vector

  /** The locals of receive_message and the contents of the buffer. */
  datatype Machine = Machine(
    input: seq<ReadResult>,
    mem: seq<byte>,               // the whole buffer, buffer_size bytes
    mss: nat,                     // mss_size: bytes received so far
    checked: nat,                 // next index the terminator scan looks at
    expected: nat,                // expected_size
    bodyStart: nat)               // body_start

  /** The bytes received so far. */
  function Got(m: Machine): seq<byte>
    requires m.mss <= |m.mem|
  {
    m.mem[..m.mss]
  }

  /** All bytes the events would deliver, in order. */
  function Bytes(input: seq<ReadResult>): seq<byte>
  {
    if |input| == 0 then []
    else (if input[0].Data? then input[0].bytes else []) + Bytes(input[1..])
  }

  /** A measure that every read consumes part of. */
  function InputSize(input: seq<ReadResult>): nat
  {
    if |input| == 0 then 0
    else 1 + (if input[0].Data? then |input[0].bytes| else 0) + InputSize(input[1..])
  }

  function Zeros(n: nat): (z: seq<byte>)
    ensures |z| == n && forall i :: 0 <= i < n ==> z[i] == 0
  {
    seq(n, _ => 0)
  }

  // ---------------------------------------------------------------------
  // The end-of-header scan (http_socket.hpp:100-108)
  // ---------------------------------------------------------------------

  /** "\r\n\r\n" ends at index j. */
  predicate TerminatorAt(got: seq<byte>, j: nat)
    requires 3 <= j < |got|
  {
    got[j - 3] == 13 && got[j - 2] == 10 && got[j - 1] == 13 && got[j] == 10
  }

  /** The index where the for loop stops: the first terminator end at or
      after c, or c itself once c has reached the end of the received bytes. */
  function ScanFrom(got: seq<byte>, c: nat): (j: nat)
    requires c >= 3
    ensures c <= j && (j <= |got| || j == c)
    ensures j < |got| ==> TerminatorAt(got, j)
    ensures forall i :: c <= i < j && i < |got| ==> !TerminatorAt(got, i)
    decreases |got| - c
  {
    if c >= |got| then c
    else if TerminatorAt(got, c) then c
    else ScanFrom(got, c + 1)
  }

  // ---------------------------------------------------------------------
  // strstr and the digit loop (http_socket.hpp:111-119)
  // ---------------------------------------------------------------------

  const LengthKey: String := "Content-Length: "

  /** The bytes up to the first NUL, as a C string reads them. */
  function CString(b: seq<byte>): (c: seq<byte>)
    ensures |c| <= |b| && c == b[..|c|]
    ensures forall i :: 0 <= i < |c| ==> c[i] != 0
    ensures |c| < |b| ==> b[|c|] == 0
  {
    if |b| == 0 || b[0] == 0 then [] else [b[0]] + CString(b[1..])
  }

  /** Bytes read as characters. */
  function Text(b: seq<byte>): (t: String)
    ensures |t| == |b| && forall i :: 0 <= i < |b| ==> t[i] as int == b[i]
  {
    seq(|b|, i requires 0 <= i < |b| => b[i] as char)
  }

  /** `needle` occurs in `hay` at position j. */
  predicate OccursAt(hay: String, needle: String, j: nat)
  {
    j + |needle| <= |hay| && hay[j..j + |needle|] == needle
  }

  /** The first position at or after i where `needle` occurs in `hay`. */
  function FindFrom(hay: String, needle: String, i: nat): (r: Option<nat>)
    requires i <= |hay|
    ensures r.Some? ==> i <= r.value && OccursAt(hay, needle, r.value)
    ensures r.Some? ==> forall j :: i <= j < r.value ==> !OccursAt(hay, needle, j)
    ensures r.None? ==> forall j :: i <= j ==> !OccursAt(hay, needle, j)
    decreases |hay| - i
  {
    if i + |needle| > |hay| then None
    else if OccursAt(hay, needle, i) then Some(i)
    else FindFrom(hay, needle, i + 1)
  }

  /** strstr(buffer, "Content-Length: "), assuming the search ends within the
      received bytes: it reads them up to the first NUL. */
  function FindKey(got: seq<byte>): Option<nat>
  {
    FindFrom(Text(CString(got)), LengthKey, 0)
  }

  /** Arithmetic on a size_t wraps around modulo 2^64. */
  function Wrap(x: int): (r: nat)
    ensures r < Two64
  {
    x % Two64
  }

  /** A char is signed: bytes 128..255 count as negative. */
  function Signed(b: byte): int
  {
    if b < 128 then b else b - 256
  }

  /** The digit loop: isdigit is applied to the index pos, so the body runs
      only while pos is one of the codes 48..57, and it adds the raw value of
      buffer[pos], modulo 2^64 like a size_t. isdigit of an index above 255
      is undefined in C; the model takes it as false like any other
      non-digit code. */
  function DigitLoop(mem: seq<byte>, pos: nat, acc: nat): (r: nat)
    requires |mem| >= 58 && acc < Two64
    ensures r < Two64
    ensures !(48 <= pos <= 57) ==> r == acc
    decreases 58 - pos
  {
    if 48 <= pos <= 57 then DigitLoop(mem, pos + 1, Wrap(acc * 10 + Signed(mem[pos])))
    else acc
  }

  // ---------------------------------------------------------------------
  // One iteration of the loop (http_socket.hpp:63-127)
  // ---------------------------------------------------------------------

  /** The facts that hold at the head of the loop. */
  predicate Inv(m: Machine)
  {
    StartingBufferSize <= |m.mem| &&
    m.mss < |m.mem| &&
    3 <= m.checked && (m.checked <= m.mss || m.checked == 3) &&
    m.expected <= SizeMax &&
    (forall j :: 3 <= j < m.checked && j < m.mss ==> !TerminatorAt(Got(m), j)) &&
    (m.bodyStart != 0 ==> m.bodyStart == m.checked + 1 && m.checked < m.mss && TerminatorAt(Got(m), m.checked))
  }

  /** The state after the end-of-header scan: `checked` where the for loop
      stopped, and body_start set when it stopped at a terminator. */
  function Scanned(m: Machine): (m1: Machine)
    requires Inv(m)
    ensures Inv(m1) && m1.input == m.input && m1.mem == m.mem && m1.mss == m.mss && m1.expected == m.expected
    ensures m1.checked >= m.checked
  {
    var j := ScanFrom(Got(m), m.checked);
    m.(checked := j, bodyStart := if j < m.mss then j + 1 else m.bodyStart)
  }

  /** Lines 109-123: once the header is complete, the expected size is 0
      when there is no Content-Length (and the loop stops), otherwise
      body_start plus what the digit loop accumulates. */
  function Expect(m: Machine, rd: Reading): (r: (Machine, Stop))
    requires Inv(m)
    ensures Inv(r.0) && r.0.input == m.input && r.0.mem == m.mem && r.0.mss == m.mss
    ensures r.1 == Running || r.1 == Finished(false)
    ensures r.1 == Finished(false) ==> r.0.mss >= r.0.expected
    ensures r.0.checked == m.checked
  {
    if m.bodyStart == 0 then (m, Running)
    else
      var r := ExpectKey(m, FindKey(Got(m)), rd);
      InvFrame(m, r.0);
      r
  }

  /** Lines 110-123 given what strstr returned. */
  function ExpectKey(m: Machine, key: Option<nat>, rd: Reading): (r: (Machine, Stop))
    requires |m.mem| >= 58 && m.mss <= |m.mem|
    requires key.Some? ==> OccursAt(Message(m), LengthKey, key.value)
    ensures r.0 == m.(expected := r.0.expected) && r.0.expected <= SizeMax
    ensures r.1 == (if key.None? then Finished(false) else Running)
    ensures key.None? ==> r.0.expected == 0
  {
    if key.None? then (m.(expected := 0), Finished(false))
    else (m.(expected := KeyEnd(m, key.value, rd)), Running)
  }

  /** The expected size once the key is found at f, as a size_t: the digit
      loop as written, or the intended decimal reading. */
  function KeyEnd(m: Machine, f: nat, rd: Reading): (e: nat)
    requires |m.mem| >= 58 && m.mss <= |m.mem| && OccursAt(Message(m), LengthKey, f)
    ensures e < Two64
    ensures rd == AsWritten ==> e == ContentEnd(m.mem, f, m.bodyStart)
    ensures rd == Intended ==> e == Wrap(IntendedContentEnd(Message(m), f, m.bodyStart))
  {
    match rd
    case AsWritten => ContentEnd(m.mem, f, m.bodyStart)
    case Intended => Wrap(IntendedContentEnd(Message(m), f, m.bodyStart))
  }

  /** body_start plus the value the digit loop reads after the key found
      at f. */
  function ContentEnd(mem: seq<byte>, f: nat, bodyStart: nat): (e: nat)
    requires |mem| >= 58
    ensures e < Two64
  {
    Wrap(DigitLoop(mem, f + 16, 0) + bodyStart)
  }

  lemma ContentEndOf(mem: seq<byte>, f: nat, bodyStart: nat, value: nat)
    requires |mem| >= 58 && value == DigitLoop(mem, f + 16, 0)
    ensures Wrap(value + bodyStart) == ContentEnd(mem, f, bodyStart)
  {
  }

  /** Lines 96-124, after mss_size has grown: stop when exactly the expected
      size has arrived, otherwise look for the end of the header while the
      expected size is unknown. */
  function After(m: Machine, rd: Reading): (r: (Machine, Stop))
    requires Inv(m)
    ensures Inv(r.0) && r.0.input == m.input && r.0.mem == m.mem && r.0.mss == m.mss
    ensures r.1 == Running || r.1 == Finished(false)
    ensures r.1 == Finished(false) ==> r.0.mss >= r.0.expected
    ensures r.0.checked >= m.checked
    ensures m.expected != SizeMax ==> r.0.expected == m.expected
  {
    if m.mss == m.expected then (m, Finished(false))
    else if m.expected != SizeMax then (m, Running)
    else Expect(Scanned(m), rd)
  }

  /** A read that delivers the first n = min(|bs|, room) bytes of bs (n >= 1)
      at offset mss; the buffer doubles when it is full, keeping the
      received bytes (the new memory is taken to be zero). */
  function Fill(m: Machine, bs: seq<byte>, rest: seq<ReadResult>): (m2: Machine)
    requires m.mss < |m.mem|
    ensures m2.mss < |m2.mem|
    ensures Got(m2) == Got(m) + bs[..Min(|bs|, |m.mem| - m.mss)]
    ensures m2.input == (if |bs| <= |m.mem| - m.mss then rest else [Data(bs[|m.mem| - m.mss..])] + rest)
    ensures |m2.mem| == (if m.mss + Min(|bs|, |m.mem| - m.mss) == |m.mem| then 2 * |m.mem| else |m.mem|)
    ensures m2.checked == m.checked && m2.expected == m.expected && m2.bodyStart == m.bodyStart
  {
    var n := Min(|bs|, |m.mem| - m.mss);
    var mem1 := m.mem[..m.mss] + bs[..n] + m.mem[m.mss + n..];
    var mss := m.mss + n;
    var mem2 := if mss == |mem1| then mem1 + Zeros(|mem1|) else mem1;
    var input := if n < |bs| then [Data(bs[n..])] + rest else rest;
    var m2 := m.(input := input, mem := mem2, mss := mss);
    assert Got(m2) == Got(m) + bs[..n] by {
      assert mem2[..mss] == mem1[..mss];
    }
    m2
  }

  /** The state after the read: Fill keeps the invariant because the
      terminator positions already scanned do not change. */
  function Delivered(m: Machine, bs: seq<byte>, rest: seq<ReadResult>): (m2: Machine)
    requires Inv(m) && |bs| > 0
    ensures m2 == Fill(m, bs, rest) && Inv(m2)
  {
    var m2 := Fill(m, bs, rest);
    TerminatorsKept(Got(m), bs[..Min(|bs|, |m.mem| - m.mss)], m.mss);
    m2
  }

  /** The read, then the checks of lines 96-124. */
  function Deliver(m: Machine, bs: seq<byte>, rest: seq<ReadResult>, rd: Reading): (r: (Machine, Stop))
    requires Inv(m) && |bs| > 0
    ensures Inv(r.0)
    ensures Got(r.0) == Got(m) + bs[..Min(|bs|, |m.mem| - m.mss)]
    ensures r.0.input == (if |bs| <= |m.mem| - m.mss then rest else [Data(bs[|m.mem| - m.mss..])] + rest)
    ensures |r.0.mem| == |m.mem| || |r.0.mem| == 2 * |m.mem|
    ensures r.1 == Running || r.1 == Finished(false)
    ensures r.1 == Finished(false) ==> r.0.mss >= r.0.expected
    ensures r.0.checked >= m.checked
    ensures m.expected != SizeMax ==> r.0.expected == m.expected
  {
    After(Delivered(m, bs, rest), rd)
  }

  /** Extending the received bytes keeps every terminator position before
      the old end as it was. */
  lemma TerminatorsKept(got: seq<byte>, more: seq<byte>, k: nat)
    requires k <= |got|
    ensures forall j :: 3 <= j < k ==> TerminatorAt(got + more, j) == TerminatorAt(got, j)
  {
  }

  /** Inv depends on the input and the expected size only through the
      bound on the latter. */
  lemma InvFrame(m: Machine, m': Machine)
    requires Inv(m) && m'.expected <= SizeMax
    requires m'.mem == m.mem && m'.mss == m.mss && m'.checked == m.checked && m'.bodyStart == m.bodyStart
    ensures Inv(m') && Got(m') == Got(m)
  {
    assert Got(m') == Got(m);
    forall j | 3 <= j < m'.checked && j < m'.mss
      ensures !TerminatorAt(Got(m'), j)
    {
      assert !TerminatorAt(Got(m), j);
    }
  }

  /** One iteration of the while loop, with mss_size < expected_size. */
  function Step(m: Machine, rd: Reading): (r: (Machine, Stop))
    requires Inv(m) && m.mss < m.expected
    ensures Inv(r.0)
    ensures Got(r.0) + Bytes(r.0.input) == Got(m) + Bytes(m.input)
    ensures r.1 != Running ==> InputSize(r.0.input) <= InputSize(m.input)
    ensures r.1 == Running ==> InputSize(r.0.input) < InputSize(m.input)
    ensures |r.0.mem| == |m.mem| || |r.0.mem| == 2 * |m.mem|
    ensures r.1 == Finished(false) ==> r.0.mss >= r.0.expected
    ensures Got(m) <= Got(r.0) && r.0.checked >= m.checked
    ensures m.expected != SizeMax ==> r.0.expected == m.expected
  {
    if |m.input| == 0 then (m, OutOfInput)
    else
      var rest := m.input[1..];
      assert m.input == [m.input[0]] + rest;
      InvFrame(m, m.(input := rest));
      match m.input[0]
      case Failure => (m.(input := rest), Failed)
      case Again(p) => (m.(input := rest), if p < 0 then Failed else Running)
      case Closed => (m.(input := rest), Finished(true))
      case Data(bs) =>
        if |bs| == 0 then (m.(input := rest), Finished(true))
        else ReadStep(m, bs, rest, rd)
  }

  /** A read that returns at least one byte. */
  function ReadStep(m: Machine, bs: seq<byte>, rest: seq<ReadResult>, rd: Reading): (r: (Machine, Stop))
    requires Inv(m) && |bs| > 0
    ensures Inv(r.0)
    ensures Got(r.0) + Bytes(r.0.input) == Got(m) + Bytes([Data(bs)] + rest)
    ensures InputSize(r.0.input) < InputSize([Data(bs)] + rest)
    ensures |r.0.mem| == |m.mem| || |r.0.mem| == 2 * |m.mem|
    ensures r.1 == Running || r.1 == Finished(false)
    ensures r.1 == Finished(false) ==> r.0.mss >= r.0.expected
    ensures Got(m) <= Got(r.0) && r.0.checked >= m.checked
    ensures m.expected != SizeMax ==> r.0.expected == m.expected
  {
    var r := Deliver(m, bs, rest, rd);
    DeliverAccounts(Got(m), bs, rest, |m.mem| - m.mss, Got(r.0), r.0.input);
    r
  }

  /** A read of n = min(|bs|, room) bytes moves them from the input to the
      received bytes and leaves the rest of bs at the head of the input. */
  lemma DeliverAccounts(got: seq<byte>, bs: seq<byte>, rest: seq<ReadResult>, room: nat, got2: seq<byte>, input2: seq<ReadResult>)
    requires |bs| > 0 && room > 0
    requires got2 == got + bs[..Min(|bs|, room)]
    requires input2 == (if |bs| <= room then rest else [Data(bs[room..])] + rest)
    ensures got2 + Bytes(input2) == got + Bytes([Data(bs)] + rest)
    ensures InputSize(input2) < InputSize([Data(bs)] + rest)
  {
    var n := Min(|bs|, room);
    DataCons(bs, rest);
    if n < |bs| {
      DataCons(bs[n..], rest);
      calc {
        got2 + Bytes(input2);
        (got + bs[..n]) + (bs[n..] + Bytes(rest));
        { assert bs[..n] + bs[n..] == bs; }
        got + (bs + Bytes(rest));
      }
    } else {
      assert bs[..n] == bs;
    }
  }

  /** A Data event in front of the input. */
  lemma DataCons(bs: seq<byte>, rest: seq<ReadResult>)
    ensures Bytes([Data(bs)] + rest) == bs + Bytes(rest)
    ensures InputSize([Data(bs)] + rest) == 1 + |bs| + InputSize(rest)
  {
    assert ([Data(bs)] + rest)[1..] == rest;
  }

  /** The loop of receive_message, run to its end. */
  function Run(m: Machine, rd: Reading): (r: (Machine, Stop))
    requires Inv(m)
    ensures Inv(r.0) && r.1 != Running
    ensures Got(r.0) + Bytes(r.0.input) == Got(m) + Bytes(m.input)
    ensures r.1 == Finished(false) ==> r.0.mss >= r.0.expected
    ensures Got(m) <= Got(r.0) && r.0.checked >= m.checked
    ensures m.expected != SizeMax ==> r.0.expected == m.expected
    decreases InputSize(m.input)
  {
    if m.mss >= m.expected then (m, Finished(false))
    else
      var s := Step(m, rd);
      if s.1 == Running then Run(s.0, rd) else s
  }

  /** One unfolding of Run. */
  lemma RunUnfold(m: Machine, rd: Reading)
    requires Inv(m) && m.mss < m.expected
    ensures Step(m, rd).1 == Running ==> Run(m, rd) == Run(Step(m, rd).0, rd)
    ensures Step(m, rd).1 != Running ==> Run(m, rd) == Step(m, rd)
  {
  }

  /** The starting state: nothing received, checked = 3, expected unknown. */
  function Start(input: seq<ReadResult>, mem: seq<byte>): (m: Machine)
    requires StartingBufferSize <= |mem|
    ensures Inv(m)
  {
    Machine(input, mem, 0, 3, SizeMax, 0)
  }

  /** The request text parse receives: the buffer up to the NUL written at
      mss_size, so up to the first NUL among the received bytes. */
  function Message(m: Machine): String
    requires m.mss <= |m.mem|
  {
    Text(CString(Got(m)))
  }

  /** What receive_message returns once the loop has ended. */
  function Finish(m: Machine, s: Stop): (o: Outcome)
    requires m.mss <= |m.mem| && s != Running
    ensures o == Returned(-1) <==> s == Failed || (s.Finished? && m.mss == 0)
    ensures o == Returned(1) <==> s == Finished(true) && m.mss > 0 && ParseDefined(Message(m))
    ensures o == Returned(0) <==> s == Finished(false) && m.mss > 0 && ParseDefined(Message(m))
    ensures o == Blocked <==> s == OutOfInput
  {
    match s
    case Failed => Returned(-1)
    case OutOfInput => Blocked
    case Finished(eof) =>
      if m.mss == 0 then Returned(-1)
      else if !ParseDefined(Message(m)) then Undefined
      else Returned(if eof then 1 else 0)
  }

  // ---------------------------------------------------------------------
  // Properties of the loop
  // ---------------------------------------------------------------------

  /** A poll that does not fail, a timeout (0) included, only leads to
      another read; a negative one ends the call with -1. */
  lemma PollRetries(m: Machine, p: int, rest: seq<ReadResult>, rd: Reading)
    requires Inv(m) && m.mss < m.expected && m.input == [Again(p)] + rest
    ensures p >= 0 ==> Inv(m.(input := rest)) && Run(m, rd) == Run(m.(input := rest), rd)
    ensures p < 0 ==> Run(m, rd) == (m.(input := rest), Failed)
  {
    assert m.input[0] == Again(p) && m.input[1..] == rest;
    InvFrame(m, m.(input := rest));
    RunUnfold(m, rd);
  }

  /** When the read completes the header and strstr finds no key, the
      expected size becomes 0 and the loop stops: the rest of the input is
      not read. */
  lemma HeaderWithoutLength(m: Machine, bs: seq<byte>, rest: seq<ReadResult>, rd: Reading)
    requires Inv(m) && m.mss < m.expected && m.expected == SizeMax && |bs| > 0 && m.input == [Data(bs)] + rest
    requires Delivered(m, bs, rest).mss != SizeMax
    requires Scanned(Delivered(m, bs, rest)).bodyStart != 0 && FindKey(Got(Delivered(m, bs, rest))) == None
    ensures Run(m, rd) == (Scanned(Delivered(m, bs, rest)).(expected := 0), Finished(false))
  {
    assert m.input[0] == Data(bs) && m.input[1..] == rest;
    RunUnfold(m, rd);
  }

  /** isdigit is applied to the index pos = f + 16, so unless the key
      starts at one of the offsets 32..41 the digits after it are never
      read and the expected size is body_start. */
  lemma ContentLengthIgnored(mem: seq<byte>, f: nat, bodyStart: nat)
    requires |mem| >= 58 && bodyStart < Two64 && !(32 <= f <= 41)
    ensures ContentEnd(mem, f, bodyStart) == bodyStart
  {
  }

  /** Consequently, when one read ends exactly at the end of a header whose
      Content-Length key lies outside 32..41, the loop stops there and the
      body still in the input is not awaited. */
  lemma BodyNotAwaited(m: Machine, bs: seq<byte>, rest: seq<ReadResult>, f: nat)
    requires Inv(m) && m.mss < m.expected && m.expected == SizeMax && |bs| > 0 && m.input == [Data(bs)] + rest
    requires Delivered(m, bs, rest).mss < SizeMax
    requires Scanned(Delivered(m, bs, rest)).bodyStart == Delivered(m, bs, rest).mss
    requires FindKey(Got(Delivered(m, bs, rest))) == Some(f) && !(32 <= f <= 41)
    ensures Run(m, AsWritten).1 == Finished(false)
    ensures Run(m, AsWritten).0.input == Delivered(m, bs, rest).input
    ensures Run(m, AsWritten).0.expected == Run(m, AsWritten).0.mss
  {
    var big := Delivered(m, bs, rest);
    var d := Scanned(big);
    assert m.input[0] == Data(bs) && m.input[1..] == rest;
    assert Step(m, AsWritten) == After(big, AsWritten);
    assert After(big, AsWritten) == Expect(d, AsWritten);
    assert Expect(d, AsWritten) == ExpectKey(d, Some(f), AsWritten);
    ContentLengthIgnored(d.mem, f, d.bodyStart);
    var e := d.(expected := d.bodyStart);
    assert Step(m, AsWritten) == (e, Running);
    RunUnfold(m, AsWritten);
    assert Run(e, AsWritten) == (e, Finished(false));
  }

  /** The digit loop as it is evidently meant: the decimal digits that
      follow the key, read as a number, plus body_start. */
  function IntendedContentEnd(text: String, f: nat, bodyStart: nat): nat
    requires f + |LengthKey| <= |text|
  {
    var t := text[f + |LengthKey|..];
    DecimalValue(t[..DigitRun(t)]) + bodyStart
  }

  /** The intended reading recovers the length the header states. */
  lemma IntendedContentEndReads(head: String, n: nat, tail: String, bodyStart: nat)
    requires |tail| > 0 && !IsDigit(tail[0])
    ensures IntendedContentEnd(head + LengthKey + Decimal(n) + tail, |head|, bodyStart) == n + bodyStart
  {
    var text := head + LengthKey + Decimal(n) + tail;
    var t := text[|head| + |LengthKey|..];
    assert t == Decimal(n) + tail;
    DigitRunOf(Decimal(n), tail);
    assert t[..DigitRun(t)] == Decimal(n);
    DecimalRoundTrip(n);
  }

  /** With the intended reading, a read that completes a header declaring
      Content-Length: n makes the loop wait for the body: it ends normally
      only once body_start + n bytes have arrived. */
  lemma BodyAwaited(m: Machine, bs: seq<byte>, rest: seq<ReadResult>, head: String, n: nat, tail: String)
    requires Inv(m) && m.mss < m.expected && m.expected == SizeMax && |bs| > 0 && m.input == [Data(bs)] + rest
    requires Delivered(m, bs, rest).mss != SizeMax && Scanned(Delivered(m, bs, rest)).bodyStart != 0
    requires FindKey(Got(Delivered(m, bs, rest))) == Some(|head|)
    requires Message(Delivered(m, bs, rest)) == head + LengthKey + Decimal(n) + tail
    requires |tail| > 0 && !IsDigit(tail[0])
    requires Scanned(Delivered(m, bs, rest)).bodyStart + n < SizeMax
    ensures var r := Run(m, Intended);
            r.1 == Finished(false) ==> r.0.mss >= Scanned(Delivered(m, bs, rest)).bodyStart + n
  {
    var d := Scanned(Delivered(m, bs, rest));
    HeaderRead(m, bs, rest, Intended);
    IntendedKeyEnd(d, head, n, tail);
    RunUnfold(m, Intended);
  }

  /** The intended expected size for a key followed by the decimal text
      of n. */
  lemma IntendedKeyEnd(d: Machine, head: String, n: nat, tail: String)
    requires |d.mem| >= 58 && d.mss <= |d.mem|
    requires Message(d) == head + LengthKey + Decimal(n) + tail && OccursAt(Message(d), LengthKey, |head|)
    requires |tail| > 0 && !IsDigit(tail[0]) && d.bodyStart + n < Two64
    ensures KeyEnd(d, |head|, Intended) == d.bodyStart + n
  {
    IntendedContentEndReads(head, n, tail, d.bodyStart);
  }

  /** A first read that completes the header and holds the key: the loop
      goes on with the expected size the reading gives. */
  lemma HeaderRead(m: Machine, bs: seq<byte>, rest: seq<ReadResult>, rd: Reading)
    requires Inv(m) && m.mss < m.expected && m.expected == SizeMax && |bs| > 0 && m.input == [Data(bs)] + rest
    requires Delivered(m, bs, rest).mss != SizeMax && Scanned(Delivered(m, bs, rest)).bodyStart != 0
    requires FindKey(Got(Delivered(m, bs, rest))).Some?
    ensures var d := Scanned(Delivered(m, bs, rest));
            Message(d) == Message(Delivered(m, bs, rest)) &&
            Step(m, rd) == (d.(expected := KeyEnd(d, FindKey(Got(Delivered(m, bs, rest))).value, rd)), Running)
  {
    var big := Delivered(m, bs, rest);
    var d := Scanned(big);
    assert m.input[0] == Data(bs) && m.input[1..] == rest;
    assert Step(m, rd) == After(big, rd) == Expect(d, rd);
  }

  /** The request of the second finding: a header declaring a body of five
      bytes, and that body. */
  const RequestLine: String := "POST / HTTP/1.1\r\n"
  const BlankLine: String := "\r\n\r\n"
  const PostHeader: String := RequestLine + LengthKey + "5" + BlankLine
  const PostBody: String := "hello"

  /** Characters below 256 as the bytes that carry them. */
  function Octets(s: String): (b: seq<byte>)
    requires forall i :: 0 <= i < |s| ==> s[i] as int < 256
    ensures Text(b) == s
  {
    seq(|s|, i requires 0 <= i < |s| => s[i] as int)
  }

  /** The two reads of the finding, as bytes. */
  const HeaderBytes: seq<byte> := Octets(PostHeader)
  const BodyBytes: seq<byte> := Octets(PostBody)

  /** What the framer sees of the header: no NUL, the one terminator ends
      at index 37, and the key starts at 17, followed by "5". */
  lemma PostHeaderScans()
    ensures |HeaderBytes| == 38 && |BodyBytes| == 5 && |RequestLine| == 17
    ensures CString(HeaderBytes) == HeaderBytes && ScanFrom(HeaderBytes, 3) == 37 && FindKey(HeaderBytes) == Some(17)
    ensures |BlankLine| > 0 && !IsDigit(BlankLine[0])
    ensures Text(HeaderBytes) == RequestLine + LengthKey + Decimal(|BodyBytes|) + BlankLine
  {
    assert Decimal(5) == "5";
    PostHeaderNoNul();
    PostHeaderTerminator();
    PostHeaderKey();
  }

  lemma PostHeaderNoNul()
    ensures CString(HeaderBytes) == HeaderBytes
  {
    assert forall i :: 0 <= i < |HeaderBytes| ==> HeaderBytes[i] != 0;
  }

  lemma PostHeaderTerminator()
    ensures ScanFrom(HeaderBytes, 3) == 37
  {
    var b := HeaderBytes;
    assert TerminatorAt(b, 37);
    forall j | 3 <= j < 37
      ensures !TerminatorAt(b, j)
    {
    }
  }

  lemma PostHeaderKey()
    requires CString(HeaderBytes) == HeaderBytes
    ensures FindKey(HeaderBytes) == Some(17)
  {
    var h := PostHeader;
    assert Text(HeaderBytes) == h;
    assert h[17..33] == LengthKey;
    assert OccursAt(h, LengthKey, 17);
    NoKeyInRequestLine();
    forall j | 0 <= j < 17
      ensures !OccursAt(h, LengthKey, j)
    {
      assert h[j] == RequestLine[j];
      assert h[j..j + |LengthKey|][0] == h[j];
    }
  }

  /** The request line holds no 'C', so the key cannot start in it. */
  lemma NoKeyInRequestLine()
    ensures forall j :: 0 <= j < |RequestLine| ==> RequestLine[j] != LengthKey[0]
  {
  }

  /** The input of the finding: the header in one read, the body in the
      next, into a fresh buffer. */
  function PostStart(mem: seq<byte>): (m: Machine)
    requires StartingBufferSize <= |mem|
    ensures Inv(m)
  {
    Start([Data(HeaderBytes)] + [Data(BodyBytes)], mem)
  }

  /** As written, the loop stops at the end of the header and "hello" is
      left unread. */
  lemma PostBodyLeft(mem: seq<byte>)
    requires StartingBufferSize <= |mem|
    ensures var r := Run(PostStart(mem), AsWritten);
            r.1 == Finished(false) && Got(r.0) == HeaderBytes && r.0.input == [Data(BodyBytes)]
  {
    var m := PostStart(mem);
    PostHeaderScans();
    var d := FirstRead(mem, HeaderBytes, [Data(BodyBytes)]);
    BodyNotAwaited(m, HeaderBytes, [Data(BodyBytes)], 17);
  }

  /** With the intended reading the same input is framed whole: the loop
      waits for "hello" and stops once it has arrived. */
  lemma PostBodyAwaited(mem: seq<byte>)
    requires StartingBufferSize <= |mem|
    ensures var r := Run(PostStart(mem), Intended);
            r.1 == Finished(false) && Got(r.0) == HeaderBytes + BodyBytes && r.0.input == []
  {
    PostHeaderScans();
    HeaderThenBody(mem, HeaderBytes, BodyBytes, RequestLine, BlankLine);
  }

  /** With the intended reading, a header declaring |body| bytes in one
      read and the body in the next: the loop ends normally with both
      received and nothing left over. */
  lemma HeaderThenBody(mem: seq<byte>, b: seq<byte>, body: seq<byte>, head: String, tail: String)
    requires StartingBufferSize <= |mem| && 0 < |b| && 0 < |body| && |b| + |body| < |mem| && |b| + |body| < SizeMax
    requires CString(b) == b && ScanFrom(b, 3) == |b| - 1 && FindKey(b) == Some(|head|)
    requires Text(b) == head + LengthKey + Decimal(|body|) + tail && |tail| > 0 && !IsDigit(tail[0])
    ensures var r := Run(Start([Data(b)] + [Data(body)], mem), Intended);
            r.1 == Finished(false) && Got(r.0) == b + body && r.0.input == []
  {
    var e := IntendedHeaderRead(mem, b, [Data(body)], head, |body|, tail);
    LastRead(e, body, Intended);
  }

  /** A last read that brings exactly the missing bytes ends the loop
      normally with everything received. */
  lemma LastRead(m: Machine, body: seq<byte>, rd: Reading)
    requires Inv(m) && m.input == [Data(body)] && |body| > 0
    requires m.mss + |body| == m.expected < |m.mem|
    ensures Run(m, rd).1 == Finished(false) && Got(Run(m, rd).0) == Got(m) + body && Run(m, rd).0.input == []
  {
    assert m.input[0] == Data(body) && m.input[1..] == [];
    var m2 := Delivered(m, body, []);
    assert Step(m, rd) == After(m2, rd) == (m2, Finished(false));
    RunUnfold(m, rd);
  }

  /** With the intended reading, a first read that holds a whole header
      declaring n bytes leaves the loop running, expecting |b| + n bytes. */
  lemma IntendedHeaderRead(mem: seq<byte>, b: seq<byte>, rest: seq<ReadResult>, head: String, n: nat, tail: String)
    returns (e: Machine)
    requires StartingBufferSize <= |mem| && 0 < |b| < |mem| && |b| + n < SizeMax
    requires CString(b) == b && ScanFrom(b, 3) == |b| - 1 && FindKey(b) == Some(|head|)
    requires Text(b) == head + LengthKey + Decimal(n) + tail && |tail| > 0 && !IsDigit(tail[0])
    ensures Inv(e) && e.mss == |b| && Got(e) == b && e.expected == |b| + n && e.input == rest && |e.mem| == |mem|
    ensures Run(Start([Data(b)] + rest, mem), Intended) == Run(e, Intended)
  {
    var m := Start([Data(b)] + rest, mem);
    var d := FirstRead(mem, b, rest);
    assert Message(d) == Text(b) by {
      assert CString(Got(d)) == b;
    }
    HeaderRead(m, b, rest, Intended);
    IntendedKeyEnd(d, head, n, tail);
    assert FindKey(Got(Delivered(m, b, rest))) == Some(|head|);
    assert Step(m, Intended) == (d.(expected := KeyEnd(d, |head|, Intended)), Running);
    assert KeyEnd(d, |head|, Intended) == |b| + n;
    e := Step(m, Intended).0;
    assert e.mem == d.mem && e.mss == d.mss && e.input == d.input && e.expected == |b| + n;
    RunUnfold(m, Intended);
  }

  /** The state after a first read of b that ends at the header's
      terminator, before the expected size is set. */
  lemma FirstRead(mem: seq<byte>, b: seq<byte>, rest: seq<ReadResult>) returns (d: Machine)
    requires StartingBufferSize <= |mem| && 0 < |b| < |mem| && ScanFrom(b, 3) == |b| - 1
    ensures d == Scanned(Delivered(Start([Data(b)] + rest, mem), b, rest))
    ensures Inv(d) && Got(d) == b && Got(Delivered(Start([Data(b)] + rest, mem), b, rest)) == b
    ensures d.mss == |b| && d.bodyStart == |b| && d.input == rest && |d.mem| == |mem| && d.expected == SizeMax
  {
    var m := Start([Data(b)] + rest, mem);
    var big := Delivered(m, b, rest);
    assert Got(big) == b;
    d := Scanned(big);
  }

  /** bodyStart at the end of the loop is 0 or one past the end of the
      first "\r\n\r\n" in the received bytes. */
  lemma BodyStartAfterFirstTerminator(input: seq<ReadResult>, mem: seq<byte>, rd: Reading)
    requires StartingBufferSize <= |mem|
    ensures var r := Run(Start(input, mem), rd).0;
            r.bodyStart == 0 ||
            (4 <= r.bodyStart <= r.mss && TerminatorAt(Got(r), r.bodyStart - 1) &&
             forall j :: 3 <= j < r.bodyStart - 1 ==> !TerminatorAt(Got(r), j))
  {
  }

  /** memcpy(dst, src, k). */
  method CopyPrefix(src: array<byte>, dst: array<byte>, k: nat)
    requires k <= src.Length && k <= dst.Length && src != dst
    modifies dst
    ensures dst[..] == src[..k] + old(dst[..])[k..]
  {
    var t := 0;
    while t < k
      invariant 0 <= t <= k
      invariant forall i :: 0 <= i < t ==> dst[i] == src[i]
      invariant forall i :: t <= i < dst.Length ==> dst[i] == old(dst[i])
    {
      dst[t] := src[t];
      t := t + 1;
    }
    assert dst[..] == src[..k] + old(dst[..])[k..];
  }

  // ---------------------------------------------------------------------
  // http_socket: the buffer, its size and the request (http_socket.hpp:27-137)
  // ---------------------------------------------------------------------

  /** The per-connection object. The buffer is allocated on the first
      receive_message and reused by the later ones until it has to grow. The
      fd and the pollfd record are not part of the model. */
  class Socket {
    var bufferSize: nat
    var buffer: array?<byte>
    const request: HttpRequest

    constructor()
      ensures bufferSize == StartingBufferSize && buffer == null
      ensures fresh(request)
      ensures request.requestType == "" && request.uri == "" && request.headers == map[] && request.content == ""
    {
      bufferSize := StartingBufferSize;
      buffer := null;
      request := new HttpRequest();
    }

    ghost predicate Valid()
      reads this
    {
      StartingBufferSize <= bufferSize && (buffer != null ==> buffer.Length == bufferSize)
    }

    /** The buffer contents a call starts from; a fresh buffer is taken to
        be zero. */
    ghost function Memory(): (mem: seq<byte>)
      requires Valid()
      reads this, buffer
      ensures |mem| == bufferSize
    {
      if buffer == null then Zeros(bufferSize) else buffer[..]
    }

    /** read(fd, buffer + mss, buffer_size - mss) on a Data event: copies the
        first min(|bs|, room) bytes to offset mss. */
    method ReadInto(bs: seq<byte>, mss: nat) returns (n: nat)
      requires buffer != null && mss < buffer.Length
      modifies buffer
      ensures n == Min(|bs|, buffer.Length - mss)
      ensures buffer[..] == old(buffer[..])[..mss] + bs[..n] + old(buffer[..])[mss + n..]
    {
      n := Min(|bs|, buffer.Length - mss);
      var t := 0;
      while t < n
        invariant 0 <= t <= n
        invariant forall i :: 0 <= i < t ==> buffer[mss + i] == bs[i]
        invariant forall i :: 0 <= i < buffer.Length && !(mss <= i < mss + t) ==> buffer[i] == old(buffer[i])
      {
        buffer[mss + t] := bs[t];
        t := t + 1;
      }
      assert buffer[..] == old(buffer[..])[..mss] + bs[..n] + old(buffer[..])[mss + n..];
    }

    /** Lines 88-94: the buffer is full, so its size doubles and the mss
        received bytes, which are all of it, are copied over. */
    method Grow(mss: nat)
      requires Valid() && buffer != null && mss == bufferSize
      modifies this
      ensures Valid() && buffer != null && fresh(buffer)
      ensures bufferSize == 2 * old(bufferSize)
      ensures buffer[..] == old(buffer[..]) + Zeros(old(bufferSize))
    {
      var temp := buffer;
      var size := bufferSize * 2;
      var fresh_ := new byte[size](_ => 0);
      CopyPrefix(temp, fresh_, mss);
      assert temp[..mss] == temp[..];
      assert fresh_[mss..] == Zeros(mss);
      bufferSize := size;
      buffer := fresh_;
    }

    /** The for loop of lines 100-108 over the received bytes. */
    method ScanTerminator(mss: nat, checked: nat) returns (j: nat)
      requires buffer != null && mss <= buffer.Length && checked >= 3
      ensures j == ScanFrom(buffer[..mss], checked)
    {
      j := checked;
      while j < mss
        invariant checked <= j
        invariant ScanFrom(buffer[..mss], j) == ScanFrom(buffer[..mss], checked)
        decreases mss - j
      {
        if buffer[j] == 10 && buffer[j - 1] == 13 && buffer[j - 2] == 10 && buffer[j - 3] == 13 {
          return;
        }
        j := j + 1;
      }
    }

    /** The length of the C string the received bytes hold: the index of
        the first NUL, or mss. */
    method CLength(mss: nat) returns (len: nat)
      requires buffer != null && mss <= buffer.Length
      ensures len <= mss && CString(buffer[..mss]) == buffer[..len]
    {
      len := 0;
      while len < mss && buffer[len] != 0
        invariant len <= mss
        invariant forall i :: 0 <= i < len ==> buffer[i] != 0
      {
        len := len + 1;
      }
    }

    /** The comparison strstr makes at position i. */
    method KeyAt(i: nat, len: nat) returns (ok: bool)
      requires buffer != null && len <= buffer.Length && i + |LengthKey| <= len
      ensures ok == OccursAt(Text(buffer[..len]), LengthKey, i)
    {
      ghost var hay := Text(buffer[..len]);
      var t := 0;
      while t < |LengthKey| && buffer[i + t] as char == LengthKey[t]
        invariant t <= |LengthKey|
        invariant forall u :: 0 <= u < t ==> hay[i + u] == LengthKey[u]
      {
        t := t + 1;
      }
      ok := t == |LengthKey|;
      if ok {
        assert hay[i..i + |LengthKey|] == LengthKey;
      } else {
        assert hay[i..i + |LengthKey|][t] != LengthKey[t];
      }
    }

    /** strstr(buffer, "Content-Length: ") over the received bytes up to the
        first NUL. */
    method FindLengthKey(mss: nat) returns (found: Option<nat>)
      requires buffer != null && mss <= buffer.Length
      ensures found == FindKey(buffer[..mss])
    {
      var len := CLength(mss);
      ghost var hay := Text(buffer[..len]);
      var i := 0;
      while i + |LengthKey| <= len
        invariant i <= len
        invariant FindFrom(hay, LengthKey, i) == FindKey(buffer[..mss])
        decreases len - i
      {
        var ok := KeyAt(i, len);
        if ok {
          found := Some(i);
          return;
        }
        i := i + 1;
      }
      found := None;
    }

    /** Lines 115-118: the digit loop, starting from expected_size = 0. */
    method DigitValue(pos: nat) returns (acc: nat)
      requires buffer != null && buffer.Length >= 58
      ensures acc == DigitLoop(buffer[..], pos, 0)
    {
      acc := 0;
      var p := pos;
      while 48 <= p <= 57
        invariant acc < Two64
        invariant DigitLoop(buffer[..], p, acc) == DigitLoop(buffer[..], pos, 0)
        decreases 58 - p
      {
        acc := Wrap(acc * 10 + Signed(buffer[p]));
        p := p + 1;
      }
    }

    /** Lines 110-123 once the header is complete: expected_size is reset
        to 0 and, when strstr finds the key, set from the digit loop. */
    method ExpectedSize(ghost m: Machine, mss: nat, bodyStart: nat) returns (expected: nat, stop: Stop)
      requires buffer != null && StartingBufferSize <= |m.mem| && m.mss <= |m.mem| && m.mem == buffer[..]
      requires mss == m.mss && bodyStart == m.bodyStart
      ensures (m.(expected := expected), stop) == ExpectKey(m, FindKey(Got(m)), AsWritten)
    {
      expected := 0;
      stop := Running;
      assert buffer[..mss] == Got(m);
      var found := FindLengthKey(mss);
      if found.Some? {
        var pos := found.value + 16;
        var value := DigitValue(pos);
        expected := Wrap(value + bodyStart);
        ContentEndOf(m.mem, found.value, bodyStart, value);
      } else {
        stop := Finished(false);
      }
    }

    /** Lines 96-124 on the buffer. */
    method AfterRead(ghost input: seq<ReadResult>, mss: nat, checked: nat, expected: nat, bodyStart: nat)
      returns (checked': nat, expected': nat, bodyStart': nat, stop: Stop)
      requires buffer != null && Inv(Machine(input, buffer[..], mss, checked, expected, bodyStart))
      ensures (Machine(input, buffer[..], mss, checked', expected', bodyStart'), stop) ==
              After(Machine(input, buffer[..], mss, checked, expected, bodyStart), AsWritten)
    {
      ghost var m := Machine(input, buffer[..], mss, checked, expected, bodyStart);
      checked', expected', bodyStart', stop := checked, expected, bodyStart, Running;
      if mss == expected {
        stop := Finished(false);
      } else if expected == SizeMax {
        assert buffer[..mss] == Got(m);
        checked' := ScanTerminator(mss, checked);
        if checked' < mss {
          bodyStart' := checked' + 1;
        }
        ghost var m1 := Machine(input, buffer[..], mss, checked', expected, bodyStart');
        assert m1 == Scanned(m);
        if bodyStart' != 0 {
          expected', stop := ExpectedSize(m1, mss, bodyStart');
          assert Expect(m1, AsWritten) == ExpectKey(m1, FindKey(Got(m1)), AsWritten);
        } else {
          assert Expect(m1, AsWritten) == (m1, Running);
        }
      }
    }

    /** Lines 67-94 on a Data event: read into the free part of the
        buffer, then double the buffer if that filled it. */
    method Receive(ghost m: Machine, bs: seq<byte>, rest: seq<ReadResult>, mss: nat)
      returns (input': seq<ReadResult>, mss': nat)
      requires Valid() && buffer != null && mss < buffer.Length
      requires m.mem == buffer[..] && m.mss == mss
      modifies this, buffer
      ensures Valid() && buffer != null
      ensures Machine(input', buffer[..], mss', m.checked, m.expected, m.bodyStart) == Fill(m, bs, rest)
      ensures buffer == old(buffer) || fresh(buffer)
      ensures bufferSize == old(bufferSize) || bufferSize == 2 * old(bufferSize)
      ensures bufferSize == old(bufferSize) ==> buffer == old(buffer)
    {
      var n := ReadInto(bs, mss);
      input' := rest;
      if n < |bs| {
        input' := [Data(bs[n..])] + rest;
      }
      mss' := mss + n;
      if mss' == bufferSize {
        Grow(mss');
      }
    }

    /** One iteration of the while loop of receive_message. */
    method Iteration(input: seq<ReadResult>, mss: nat, checked: nat, expected: nat, bodyStart: nat)
      returns (input': seq<ReadResult>, mss': nat, checked': nat, expected': nat, bodyStart': nat, stop: Stop)
      requires Valid() && buffer != null
      requires Inv(Machine(input, buffer[..], mss, checked, expected, bodyStart)) && mss < expected
      modifies this, buffer
      ensures Valid() && buffer != null
      ensures (Machine(input', buffer[..], mss', checked', expected', bodyStart'), stop) ==
              Step(Machine(input, old(buffer[..]), mss, checked, expected, bodyStart), AsWritten)
      ensures buffer == old(buffer) || fresh(buffer)
      ensures bufferSize == old(bufferSize) || bufferSize == 2 * old(bufferSize)
      ensures bufferSize == old(bufferSize) ==> buffer == old(buffer)
    {
      ghost var m := Machine(input, buffer[..], mss, checked, expected, bodyStart);
      input', mss', checked', expected', bodyStart', stop := input, mss, checked, expected, bodyStart, Running;
      if |input| == 0 {
        stop := OutOfInput;
        return;
      }
      var rest := input[1..];
      input' := rest;
      match input[0]
      case Failure =>
        stop := Failed;
      case Again(p) =>
        if p < 0 {
          stop := Failed;
        }
      case Closed =>
        stop := Finished(true);
      case Data(bs) =>
        if |bs| == 0 {
          stop := Finished(true);
        } else {
          input', mss' := Receive(m, bs, rest, mss);
          assert Machine(input', buffer[..], mss', checked, expected, bodyStart) == Delivered(m, bs, rest);
          checked', expected', bodyStart', stop := AfterRead(input', mss', checked, expected, bodyStart);
        }
    }

    /** The while loop of receive_message (lines 63-127), from its
        initial locals to the iteration that ends it. */
    method Loop(input: seq<ReadResult>)
      returns (pending: seq<ReadResult>, mss: nat, checked: nat, expected: nat, bodyStart: nat, stop: Stop)
      requires Valid() && buffer != null
      modifies this, buffer
      ensures Valid() && buffer != null
      ensures (Machine(pending, buffer[..], mss, checked, expected, bodyStart), stop) ==
              Run(Start(input, old(buffer[..])), AsWritten)
      ensures buffer == old(buffer) || fresh(buffer)
      ensures bufferSize == old(bufferSize) ==> buffer == old(buffer)
    {
      ghost var m0 := Start(input, buffer[..]);
      pending, mss, checked, expected, bodyStart, stop := input, 0, 3, SizeMax, 0, Running;
      while mss < expected
        invariant Valid() && buffer != null
        invariant Inv(Machine(pending, buffer[..], mss, checked, expected, bodyStart))
        invariant Run(Machine(pending, buffer[..], mss, checked, expected, bodyStart), AsWritten) == Run(m0, AsWritten)
        invariant buffer == old(buffer) || fresh(buffer)
        invariant bufferSize >= old(bufferSize)
        invariant bufferSize == old(bufferSize) ==> buffer == old(buffer)
        decreases InputSize(pending)
      {
        ghost var m := Machine(pending, buffer[..], mss, checked, expected, bodyStart);
        pending, mss, checked, expected, bodyStart, stop := Iteration(pending, mss, checked, expected, bodyStart);
        ghost var next := Machine(pending, buffer[..], mss, checked, expected, bodyStart);
        assert Step(m, AsWritten) == (next, stop);
        RunUnfold(m, AsWritten);
        if stop != Running {
          assert Run(m0, AsWritten) == (next, stop);
          return;
        }
      }
      stop := Finished(false);
    }

    /** Lines 128-136, after the loop: -1 on failure or when nothing
        arrived, otherwise NUL-terminate the received bytes and parse them. */
    method Conclude(ghost m: Machine, mss: nat, stop: Stop) returns (outcome: Outcome)
      requires Valid() && buffer != null && Inv(m) && stop != Running
      requires m.mem == buffer[..] && m.mss == mss
      modifies buffer, request
      ensures outcome == Finish(m, stop)
      ensures buffer[..] == (if stop.Finished? && mss > 0 then m.mem[mss := 0] else m.mem)
      ensures outcome.Returned? && outcome.code != -1 ==>
                request.requestType == RequestTokens(Lines(Message(m)))[0] &&
                request.uri == RequestTokens(Lines(Message(m)))[1] &&
                request.headers == HeaderMap(Lines(Message(m))[1..HeaderEnd(Lines(Message(m)))]) &&
                request.content == ContentOf(Lines(Message(m)))
      ensures !(outcome.Returned? && outcome.code != -1) ==> unchanged(request)
    {
      match stop
      case Failed =>
        outcome := Returned(-1);
      case OutOfInput =>
        outcome := Blocked;
      case Finished(eof) =>
        if mss > 0 {
          buffer[mss] := 0;
          var text := Text(CString(buffer[..mss]));
          assert buffer[..mss] == Got(m);
          if ParseDefined(text) {
            request.Parse(text);
            outcome := Returned(if eof then 1 else 0);
          } else {
            outcome := Undefined;
          }
        } else {
          outcome := Returned(-1);
        }
    }

    /** receive_message: allocate the buffer on first use, run the loop, then
        NUL-terminate and parse what arrived. */
    method ReceiveMessage(input: seq<ReadResult>) returns (outcome: Outcome, rest: seq<ReadResult>)
      requires Valid()
      modifies this, buffer, request
      ensures Valid() && buffer != null
      ensures var r := Run(Start(input, old(Memory())), AsWritten);
              rest == r.0.input && outcome == Finish(r.0, r.1) && bufferSize == |r.0.mem| &&
              buffer[..] == (if r.1.Finished? && r.0.mss > 0 then r.0.mem[r.0.mss := 0] else r.0.mem)
      ensures var r := Run(Start(input, old(Memory())), AsWritten);
              outcome.Returned? && outcome.code != -1 ==>
                request.requestType == RequestTokens(Lines(Message(r.0)))[0] &&
                request.uri == RequestTokens(Lines(Message(r.0)))[1] &&
                request.headers == HeaderMap(Lines(Message(r.0))[1..HeaderEnd(Lines(Message(r.0)))]) &&
                request.content == ContentOf(Lines(Message(r.0)))
      ensures !(outcome.Returned? && outcome.code != -1) ==> unchanged(request)
      ensures buffer == old(buffer) || fresh(buffer)
      ensures old(buffer) != null && bufferSize == old(bufferSize) ==> buffer == old(buffer)
    {
      if buffer == null {
        buffer := new byte[bufferSize](_ => 0);
        assert buffer[..] == Zeros(bufferSize);
      }
      ghost var r := Run(Start(input, old(Memory())), AsWritten);
      var mss, checked, expected, bodyStart, stop;
      rest, mss, checked, expected, bodyStart, stop := Loop(input);
      ghost var mEnd := Machine(rest, buffer[..], mss, checked, expected, bodyStart);
      assert r == (mEnd, stop);
      outcome := Conclude(mEnd, mss, stop);
    }
  }
}
