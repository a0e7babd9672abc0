/** Discord's local framing: a little-endian opcode and length, then a JSON body. */
module Frames {
  import opened Common

  const HANDSHAKE: Word := 0
  const FRAME: Word := 1
  const PING: Word := 3
  const PONG: Word := 4

  /** The longest body the reader accepts. */
  const REPLY_LIMIT: nat := 65536

  const WORDS: nat := 0x1_0000_0000

  type Word = n: int | 0 <= n < WORDS witness 0

  /** How JSON values are printed and parsed, and which of them report an error. */
  datatype Json<!V> = Json(print_: V -> Bytes, parse: Bytes -> Option<V>, isError: V -> bool)

  ghost predicate Lawful<V(!new)>(json: Json<V>) {
    forall v :: json.parse(json.print_(v)) == Some(v)
  }

  datatype Frame<V> = Frame(opcode: Word, body: V)

  datatype ReadError = Truncated | Oversized | Malformed

  // ----- Words -----

  function LittleEndian(n: Word): (b: Bytes)
    ensures |b| == 4
  {
    [n % 256, n / 256 % 256, n / 65536 % 256, n / 16777216]
  }

  function WordOf(b: Bytes): Word
    requires |b| == 4
  {
    b[0] as int + 256 * b[1] as int + 65536 * b[2] as int + 16777216 * b[3] as int
  }

  lemma WordReadsBack(n: Word)
    ensures WordOf(LittleEndian(n)) == n
  {
    assert n / 256 / 256 == n / 65536;
    assert n / 65536 / 256 == n / 16777216;
    assert n == n / 256 * 256 + n % 256;
    assert n / 256 == n / 65536 * 256 + n / 256 % 256;
    assert n / 65536 == n / 16777216 * 256 + n / 65536 % 256;
  }

  // ----- Frames -----

  predicate Encodable<V>(json: Json<V>, f: Frame<V>) {
    |json.print_(f.body)| < WORDS
  }

  function Encode<V>(json: Json<V>, f: Frame<V>): Bytes
    requires Encodable(json, f)
  {
    var body := json.print_(f.body);
    LittleEndian(f.opcode) + LittleEndian(|body|) + body
  }

  /** The first frame of a stream, and what follows it. */
  function Decode<V>(json: Json<V>, input: Bytes): (r: Result<(Frame<V>, Bytes), ReadError>)
    ensures r.Success? ==> |r.value.1| + 8 <= |input|
  {
    if |input| < 8 then Failure(Truncated)
    else
      var length := WordOf(input[4..8]);
      if length > REPLY_LIMIT then Failure(Oversized)
      else if |input| < 8 + length then Failure(Truncated)
      else
        var body := json.parse(input[8..8 + length]);
        if body.None? then Failure(Malformed)
        else Success((Frame(WordOf(input[..4]), body.value), input[8 + length..]))
  }

  lemma Layout<V>(json: Json<V>, f: Frame<V>, rest: Bytes)
    requires Encodable(json, f)
    ensures var input := Encode(json, f) + rest;
            var end := 8 + |json.print_(f.body)|;
            && |input| == end + |rest|
            && input[..4] == LittleEndian(f.opcode)
            && input[4..8] == LittleEndian(|json.print_(f.body)|)
            && input[8..end] == json.print_(f.body) && input[end..] == rest
  {
  }

  /**
   What a frame is, byte by byte, whoever wrote it: four bytes of opcode, four bytes of length,
   both with the least byte first, and the body. Eight bytes always come first, a length above
   64 KiB is refused before the body is read, and a body that is no JSON is refused after.
   */
  lemma FrameMeans<V>(json: Json<V>, input: Bytes)
    ensures |input| < 8 ==> Decode(json, input) == Failure(Truncated)
    ensures |input| >= 8 ==>
              var opcode := Placed(input[0], input[1], input[2], input[3]);
              var length := Placed(input[4], input[5], input[6], input[7]);
              Decode(json, input)
              == if length > 64 * 1024 then Failure(Oversized)
                 else if |input| < 8 + length then Failure(Truncated)
                 else
                   match json.parse(input[8..8 + length])
                   case None => Failure(Malformed)
                   case Some(body) => Success((Frame(opcode, body), input[8 + length..]))
  {
    if |input| >= 8 {
      assert input[..4] == [input[0], input[1], input[2], input[3]];
      assert input[4..8] == [input[4], input[5], input[6], input[7]];
    }
  }

  ghost function Placed(b0: Byte, b1: Byte, b2: Byte, b3: Byte): Word {
    b0 as int + 256 * (b1 as int + 256 * (b2 as int + 256 * b3 as int))
  }

  /** A handshake, a message, a ping and a pong on the wire, each with a body of seven bytes. */
  lemma OnTheWire<V>(json: Json<V>, body: V)
    requires |json.print_(body)| == 7
    ensures Encode(json, Frame(HANDSHAKE, body)) == [0, 0, 0, 0, 7, 0, 0, 0] + json.print_(body)
    ensures Encode(json, Frame(FRAME, body)) == [1, 0, 0, 0, 7, 0, 0, 0] + json.print_(body)
    ensures Encode(json, Frame(PING, body)) == [3, 0, 0, 0, 7, 0, 0, 0] + json.print_(body)
    ensures Encode(json, Frame(PONG, body)) == [4, 0, 0, 0, 7, 0, 0, 0] + json.print_(body)
  {
  }

  /** A frame reads back, whatever follows it, exactly when its body is within the limit. */
  lemma FrameReadsBack<V(!new)>(json: Json<V>, f: Frame<V>, rest: Bytes)
    requires Lawful(json) && Encodable(json, f)
    ensures Decode(json, Encode(json, f) + rest)
            == if |json.print_(f.body)| <= REPLY_LIMIT then Success((f, rest)) else Failure(Oversized)
  {
    hide Encode, LittleEndian, WordOf;
    Layout(json, f, rest);
    WordReadsBack(f.opcode);
    WordReadsBack(|json.print_(f.body)|);
  }

  /** A frame cut short anywhere is noticed: nothing is taken for a shorter frame. */
  lemma CutFrameIsTruncated<V>(json: Json<V>, f: Frame<V>, n: nat)
    requires Encodable(json, f) && |json.print_(f.body)| <= REPLY_LIMIT
    requires n < |Encode(json, f)|
    ensures Decode(json, Encode(json, f)[..n]) == Failure(Truncated)
  {
    hide Encode, LittleEndian, WordOf;
    Layout(json, f, []);
    assert Encode(json, f) + [] == Encode(json, f);
    if n >= 8 {
      var whole := Encode(json, f);
      assert whole[..n][4..8] == whole[4..8];
      WordReadsBack(|json.print_(f.body)|);
    }
  }

  ghost predicate AllEncodable<V>(json: Json<V>, frames: seq<Frame<V>>) {
    forall i :: 0 <= i < |frames| ==> Encodable(json, frames[i])
  }

  ghost predicate WithinLimit<V>(json: Json<V>, frames: seq<Frame<V>>) {
    forall i :: 0 <= i < |frames| ==> |json.print_(frames[i].body)| <= REPLY_LIMIT
  }

  /** Frames written back to back. */
  ghost function EncodeAll<V>(json: Json<V>, frames: seq<Frame<V>>): Bytes
    requires AllEncodable(json, frames)
  {
    if frames == [] then [] else Encode(json, frames[0]) + EncodeAll(json, frames[1..])
  }

  /** Reading `frames` one after another from `before` leaves `after`. */
  ghost predicate Reads<V>(json: Json<V>, before: Bytes, frames: seq<Frame<V>>, after: Bytes)
    decreases |frames|
  {
    if frames == [] then before == after
    else
      var first := Decode(json, before);
      && first.Success? && first.value.0 == frames[0]
      && Reads(json, first.value.1, frames[1..], after)
  }

  /** Any frames within the limit read back as themselves, with nothing left over. */
  lemma {:induction false} FramesReadBack<V(!new)>(json: Json<V>, frames: seq<Frame<V>>, rest: Bytes)
    requires Lawful(json) && AllEncodable(json, frames) && WithinLimit(json, frames)
    ensures Reads(json, EncodeAll(json, frames) + rest, frames, rest)
    decreases |frames|
  {
    hide Encode, Decode;
    if frames == [] {
      assert EncodeAll(json, frames) + rest == rest;
    } else {
      var tail := EncodeAll(json, frames[1..]) + rest;
      FrameReadsBack(json, frames[0], tail);
      assert EncodeAll(json, frames) + rest == Encode(json, frames[0]) + tail;
      FramesReadBack(json, frames[1..], rest);
    }
  }

  /** A stream reads as one sequence of frames: what has been sent cannot be read differently. */
  lemma {:induction false} ReadingIsUnique<V>(
    json: Json<V>, before: Bytes, xs: seq<Frame<V>>, ys: seq<Frame<V>>)
    requires Reads(json, before, xs, []) && Reads(json, before, ys, [])
    ensures xs == ys
    decreases |xs|
  {
    hide Decode;
    assert Decode(json, []) == Failure(Truncated) by { EmptyIsTruncated(json); }
    if xs != [] && ys != [] {
      ReadingIsUnique(json, Decode(json, before).value.1, xs[1..], ys[1..]);
      assert xs == [xs[0]] + xs[1..] && ys == [ys[0]] + ys[1..];
    }
  }

  lemma EmptyIsTruncated<V>(json: Json<V>)
    ensures Decode(json, []) == Failure(Truncated)
  {
  }

  lemma {:induction false} ReadsOneMore<V>(
    json: Json<V>, before: Bytes, frames: seq<Frame<V>>, middle: Bytes, f: Frame<V>, after: Bytes)
    requires Reads(json, before, frames, middle)
    requires Decode(json, middle) == Success((f, after))
    ensures Reads(json, before, frames + [f], after)
    decreases |frames|
  {
    hide Decode;
    if frames == [] {
      assert Reads(json, after, [f][1..], after);
      assert frames + [f] == [f];
    } else {
      ReadsOneMore(json, Decode(json, before).value.1, frames[1..], middle, f, after);
      assert (frames + [f])[1..] == frames[1..] + [f];
    }
  }

  lemma {:induction false} EncodeOfConcat<V>(json: Json<V>, front: seq<Frame<V>>, back: seq<Frame<V>>)
    requires AllEncodable(json, front) && AllEncodable(json, back)
    ensures AllEncodable(json, front + back)
    ensures EncodeAll(json, front + back) == EncodeAll(json, front) + EncodeAll(json, back)
    decreases |front|
  {
    hide Encode, Encodable;
    assert AllEncodable(json, front + back);
    if front == [] {
      assert front + back == back;
    } else {
      EncodeOfConcat(json, front[1..], back);
      assert (front + back)[1..] == front[1..] + back;
    }
  }

  /** The answers to the pings among `frames`, in order. */
  ghost function Pongs<V>(frames: seq<Frame<V>>): seq<Frame<V>> {
    if frames == [] then []
    else
      var last := frames[|frames| - 1];
      Pongs(frames[..|frames| - 1])
      + if last.opcode == PING then [Frame(PONG, last.body)] else []
  }

  lemma PongsOneMore<V>(frames: seq<Frame<V>>, f: Frame<V>)
    ensures Pongs(frames + [f])
            == Pongs(frames) + if f.opcode == PING then [Frame(PONG, f.body)] else []
  {
    assert (frames + [f])[..|frames|] == frames;
  }

  /** `frames` were written, in full, between `before` and `sent`. */
  ghost predicate Wrote<V>(json: Json<V>, before: Bytes, frames: seq<Frame<V>>, sent: Bytes) {
    AllEncodable(json, frames) && sent == before + EncodeAll(json, frames)
  }

  lemma WroteMore<V>(
    json: Json<V>, before: Bytes, xs: seq<Frame<V>>, middle: Bytes, ys: seq<Frame<V>>, sent: Bytes)
    requires Wrote(json, before, xs, middle) && Wrote(json, middle, ys, sent)
    ensures Wrote(json, before, xs + ys, sent)
  {
    hide Encode, Encodable;
    EncodeOfConcat(json, xs, ys);
    assert (before + EncodeAll(json, xs)) + EncodeAll(json, ys)
        == before + (EncodeAll(json, xs) + EncodeAll(json, ys));
  }

  lemma WroteNothing<V>(json: Json<V>, sent: Bytes)
    ensures Wrote(json, sent, [], sent)
  {
  }

  lemma WroteOne<V>(json: Json<V>, before: Bytes, f: Frame<V>, sent: Bytes)
    requires Encodable(json, f) && sent == before + Encode(json, f)
    ensures Wrote(json, before, [f], sent)
  {
    hide Encode;
    assert [f][1..] == [];
    assert EncodeAll(json, [f]) == Encode(json, f) + [];
  }

  /** `frames` were written in full, and then some part of `next`, if that can be written at all. */
  ghost predicate WrotePart<V>(
    json: Json<V>, before: Bytes, frames: seq<Frame<V>>, next: Option<Frame<V>>, sent: Bytes)
  {
    exists middle ::
      && Wrote(json, before, frames, middle) && middle <= sent
      && if next.Some? && Encodable(json, next.value)
         then sent[|middle|..] <= Encode(json, next.value) else sent == middle
  }

  lemma WroteNoPart<V>(json: Json<V>, before: Bytes, frames: seq<Frame<V>>, sent: Bytes)
    requires Wrote(json, before, frames, sent)
    ensures WrotePart(json, before, frames, None, sent)
  {
  }

  lemma WroteSomePart<V>(
    json: Json<V>, before: Bytes, frames: seq<Frame<V>>, middle: Bytes, f: Frame<V>, sent: Bytes)
    requires Wrote(json, before, frames, middle)
    requires Encodable(json, f) ==>
               exists n :: 0 <= n <= |Encode(json, f)| && sent == middle + Encode(json, f)[..n]
    requires !Encodable(json, f) ==> sent == middle
    ensures WrotePart(json, before, frames, Some(f), sent)
  {
    hide Encode, Encodable, Wrote;
  }

  lemma WrotePartAfter<V>(
    json: Json<V>, before: Bytes, xs: seq<Frame<V>>, middle: Bytes, ys: seq<Frame<V>>,
    next: Option<Frame<V>>, sent: Bytes)
    requires Wrote(json, before, xs, middle) && WrotePart(json, middle, ys, next, sent)
    ensures WrotePart(json, before, xs + ys, next, sent)
  {
    hide Encode, Encodable, Wrote;
    var last :| && Wrote(json, middle, ys, last) && last <= sent
                && if next.Some? && Encodable(json, next.value)
                   then sent[|last|..] <= Encode(json, next.value) else sent == last;
    WroteMore(json, before, xs, middle, ys, last);
  }

  /** What has been sent after answering every ping among `heard`. */
  ghost predicate Answered<V>(json: Json<V>, before: Bytes, heard: seq<Frame<V>>, sent: Bytes) {
    Wrote(json, before, Pongs(heard), sent)
  }

  lemma AnsweredPart<V>(json: Json<V>, before: Bytes, heard: seq<Frame<V>>, sent: Bytes)
    requires Answered(json, before, heard, sent)
    ensures WrotePart(json, before, Pongs(heard), None, sent)
  {
    WroteNoPart(json, before, Pongs(heard), sent);
  }

  lemma AnsweredSomePart<V>(
    json: Json<V>, before: Bytes, heard: seq<Frame<V>>, middle: Bytes, f: Frame<V>, sent: Bytes)
    requires Answered(json, before, heard, middle)
    requires Encodable(json, f) ==>
               exists n :: 0 <= n <= |Encode(json, f)| && sent == middle + Encode(json, f)[..n]
    requires !Encodable(json, f) ==> sent == middle
    ensures WrotePart(json, before, Pongs(heard), Some(f), sent)
  {
    WroteSomePart(json, before, Pongs(heard), middle, f, sent);
  }

  lemma NothingHeard<V>(json: Json<V>, incoming: Bytes, sent: Bytes)
    ensures Reads(json, incoming, [], incoming) && Answered(json, sent, [], sent)
  {
  }

  lemma AnsweredOneMore<V>(json: Json<V>, before: Bytes, heard: seq<Frame<V>>, f: Frame<V>, sent: Bytes)
    requires Answered(json, before, heard, sent)
    ensures f.opcode != PING ==> Answered(json, before, heard + [f], sent)
    ensures f.opcode == PING && Encodable(json, Frame(PONG, f.body)) ==>
              Answered(json, before, heard + [f], sent + Encode(json, Frame(PONG, f.body)))
  {
    hide Encode, Encodable;
    PongsOneMore(heard, f);
    if f.opcode == PING && Encodable(json, Frame(PONG, f.body)) {
      var pong := Frame(PONG, f.body);
      var after := sent + Encode(json, pong);
      WroteOne(json, sent, pong, after);
      WroteMore(json, before, Pongs(heard), sent, [pong], after);
    } else if f.opcode != PING {
      assert Pongs(heard) + [] == Pongs(heard);
    }
  }

  /** What Discord reads of a connection that only answers: the pongs, and nothing else. */
  lemma PongsReadBack<V(!new)>(json: Json<V>, heard: seq<Frame<V>>, sent: Bytes)
    requires Lawful(json) && Answered(json, [], heard, sent) && WithinLimit(json, Pongs(heard))
    ensures Reads(json, sent, Pongs(heard), [])
    ensures forall frames :: Reads(json, sent, frames, []) ==> frames == Pongs(heard)
  {
    hide Encode, Decode;
    FramesReadBack(json, Pongs(heard), []);
    assert sent == EncodeAll(json, Pongs(heard)) + [];
    forall frames | Reads(json, sent, frames, []) ensures frames == Pongs(heard) {
      ReadingIsUnique(json, sent, frames, Pongs(heard));
    }
  }

  // ----- The connection -----

  datatype Served = Stopped | Closed

  class Pipe<V> {
    const json: Json<V>
    /** Everything Discord will still send before it closes. */
    var incoming: Bytes
    var sent: Bytes

    constructor (json: Json<V>, incoming: Bytes)
      ensures this.json == json && this.incoming == incoming && sent == []
    {
      this.json, this.incoming, sent := json, incoming, [];
    }

    method ReadExact(n: nat) returns (bytes: Option<Bytes>)
      modifies this`incoming
      ensures n <= |old(incoming)| ==>
                bytes == Some(old(incoming)[..n]) && incoming == old(incoming)[n..]
      ensures n > |old(incoming)| ==> bytes.None? && incoming == []
    {
      if |incoming| < n {
        bytes, incoming := None, [];
      } else {
        bytes, incoming := Some(incoming[..n]), incoming[n..];
      }
    }

    method ReadFrame() returns (frame: Result<Frame<V>, ReadError>)
      modifies this`incoming
      ensures match Decode(json, old(incoming))
              case Success((f, rest)) => frame == Success(f) && incoming == rest
              case Failure(error) => frame == Failure(error)
    {
      ghost var input := incoming;
      var header := ReadExact(8);
      if header.None? {
        return Failure(Truncated);
      }
      var length := WordOf(header.value[4..8]);
      assert header.value[4..8] == input[4..8] && header.value[..4] == input[..4];
      if length > REPLY_LIMIT {
        return Failure(Oversized);
      }
      var body := ReadExact(length);
      if body.None? {
        return Failure(Truncated);
      }
      assert input[8..][..length] == input[8..8 + length];
      assert input[8..][length..] == input[8 + length..];
      var value := json.parse(body.value);
      if value.None? {
        return Failure(Malformed);
      }
      frame := Success(Frame(WordOf(header.value[..4]), value.value));
    }

    /** A write that fails may have written any part of the frame. */
    method WriteFrame(f: Frame<V>) returns (ok: bool)
      modifies this`sent
      ensures ok ==> Encodable(json, f) && sent == old(sent) + Encode(json, f)
      ensures !ok ==> Encodable(json, f) ==>
                exists n :: 0 <= n <= |Encode(json, f)| && sent == old(sent) + Encode(json, f)[..n]
      ensures !Encodable(json, f) ==> !ok && sent == old(sent)
    {
      var body := json.print_(f.body);
      if |body| >= WORDS {
        return false;
      }
      var frame := LittleEndian(f.opcode) + LittleEndian(|body|) + body;
      ok := *;
      if ok {
        sent := sent + frame;
      } else {
        var n :| 0 <= n <= |frame|;
        assert frame == Encode(json, f);
        sent := sent + frame[..n];
      }
    }

    /**
     Hold the connection until it is stopped, perhaps in the middle of a frame, or closed. While
     every write succeeds, what is sent is exactly the body of every ping received, as a pong, in
     order; it closes when Discord sends something that cannot be read or is neither a ping nor a
     message, or when a pong cannot be written.
     */
    method Serve() returns (served: Served, ghost heard: seq<Frame<V>>)
      modifies this
      ensures forall i :: 0 <= i < |heard| ==> heard[i].opcode == PING || heard[i].opcode == FRAME
      ensures served.Stopped? ==>
                && Answered(json, old(sent), heard, sent)
                && exists cut :: && Reads(json, old(incoming), heard, cut + incoming)
                                 && Decode(json, cut) == Failure(Truncated)
      ensures served.Closed? ==>
                exists rest, before ::
                  && Reads(json, old(incoming), heard, rest)
                  && Answered(json, old(sent), heard, before)
                  && ClosedAfter(rest, before)
    {
      heard := [];
      NothingHeard(json, incoming, sent);
      hide Encode, Encodable, Decode, Reads, Answered;
      while true
        invariant forall i :: 0 <= i < |heard| ==> heard[i].opcode == PING || heard[i].opcode == FRAME
        invariant Reads(json, old(incoming), heard, incoming)
        invariant Answered(json, old(sent), heard, sent)
        decreases |incoming|
      {
        var stop := *;
        if stop {
          EmptyIsTruncated(json);
          assert incoming[..0] == [];
          var n :| 0 <= n <= |incoming| && Decode(json, incoming[..n]) == Failure(Truncated);
          ghost var cut := incoming[..n];
          assert cut + incoming[n..] == incoming;
          incoming := incoming[n..];
          return Stopped, heard;
        }
        ghost var rest, before := incoming, sent;
        var frame := ReadFrame();
        if frame.Failure? || (frame.value.opcode != PING && frame.value.opcode != FRAME) {
          assert ClosedAfter(rest, before);
          return Closed, heard;
        }
        if frame.value.opcode == PING {
          var ok := WriteFrame(Frame(PONG, frame.value.body));
          if !ok {
            assert ClosedAfter(rest, before);
            return Closed, heard;
          }
        }
        ReadsOneMore(json, old(incoming), heard, rest, frame.value, incoming);
        AnsweredOneMore(json, old(sent), heard, frame.value, before);
        heard := heard + [frame.value];
      }
    }

    /** A ping, or a message that is neither an error nor what is waited for. */
    ghost predicate Skipped(wanted: V -> bool, f: Frame<V>) {
      f.opcode == PING || (f.opcode == FRAME && !json.isError(f.body) && !wanted(f.body))
    }

    /** `heard` ends with the wanted frame, and it is the first that is not skipped. */
    ghost predicate FirstWanted(wanted: V -> bool, heard: seq<Frame<V>>) {
      && heard != []
      && var last := heard[|heard| - 1];
         && last.opcode == FRAME && !json.isError(last.body) && wanted(last.body)
         && forall i :: 0 <= i < |heard| - 1 ==> Skipped(wanted, heard[i])
    }

    /**
     Read on to the frame that `wanted` accepts. It is found exactly when it is the first frame that
     is neither a ping nor an unrelated message, and every ping before it was answered in order.
     */
    method AwaitReply(wanted: V -> bool)
      returns (ok: bool, ghost heard: seq<Frame<V>>, ghost part: Option<Frame<V>>)
      modifies this
      ensures ok ==>
                && FirstWanted(wanted, heard)
                && Reads(json, old(incoming), heard, incoming)
                && Answered(json, old(sent), heard, sent)
      ensures !ok ==>
                && (forall i :: 0 <= i < |heard| ==> Skipped(wanted, heard[i]))
                && exists rest, before ::
                     && Reads(json, old(incoming), heard, rest)
                     && Answered(json, old(sent), heard, before)
                     && RefusedAfter(wanted, rest, before)
      ensures !ok ==>
                && WrotePart(json, old(sent), Pongs(heard), part, sent)
                && (part.Some? ==> part.value.opcode == PONG)
    {
      heard, part := [], None;
      NothingHeard(json, incoming, sent);
      hide Encode, Encodable, Decode, Reads, Answered, WrotePart;
      while true
        invariant forall i :: 0 <= i < |heard| ==> Skipped(wanted, heard[i])
        invariant Reads(json, old(incoming), heard, incoming)
        invariant Answered(json, old(sent), heard, sent)
        decreases |incoming|
      {
        ghost var rest, before := incoming, sent;
        var frame := ReadFrame();
        AnsweredPart(json, old(sent), heard, before);
        if frame.Failure? {
          assert RefusedAfter(wanted, rest, before);
          return false, heard, None;
        }
        var reply := frame.value;
        ReadsOneMore(json, old(incoming), heard, rest, reply, incoming);
        AnsweredOneMore(json, old(sent), heard, reply, before);
        if reply.opcode == PING {
          var ok := WriteFrame(Frame(PONG, reply.body));
          if !ok {
            assert RefusedAfter(wanted, rest, before);
            AnsweredSomePart(json, old(sent), heard, before, Frame(PONG, reply.body), sent);
            return false, heard, Some(Frame(PONG, reply.body));
          }
        } else if reply.opcode == FRAME && !json.isError(reply.body) {
          if wanted(reply.body) {
            return true, heard + [reply], None;
          }
        } else {
          assert RefusedAfter(wanted, rest, before);
          return false, heard, None;
        }
        heard := heard + [reply];
      }
    }

    /** How far an exchange that failed got: what was sent in full, and what in part at most. */
    ghost predicate Reached(
      hello: V, request: V, ready: V -> bool, greeting: seq<Frame<V>>, answer: seq<Frame<V>>,
      full: seq<Frame<V>>, part: Option<Frame<V>>)
    {
      var first, second := Frame(HANDSHAKE, hello), Frame(FRAME, request);
      || (full == [] && greeting == [] && part == Some(first))
      || (&& full == [first] + Pongs(greeting) && (part.Some? ==> part.value.opcode == PONG)
          && forall i :: 0 <= i < |greeting| ==> Skipped(ready, greeting[i]))
      || (&& full == [first] + Pongs(greeting) && part == Some(second)
          && FirstWanted(ready, greeting))
      || (&& full == [first] + Pongs(greeting) + [second] + Pongs(answer)
          && (part.Some? ==> part.value.opcode == PONG) && FirstWanted(ready, greeting))
    }

    /**
     Show an activity: the request is only sent once Discord has said it is ready, and the status
     only counts as set once Discord has answered that request. Whatever stops the exchange, what
     was sent is the exchange up to there, and perhaps a part of its next frame.
     */
    method SetActivity(hello: V, request: V, ready: V -> bool, answers: V -> bool)
      returns (ok: bool, ghost greeting: seq<Frame<V>>, ghost answer: seq<Frame<V>>,
               ghost full: seq<Frame<V>>, ghost part: Option<Frame<V>>)
      modifies this
      ensures ok ==>
                && FirstWanted(ready, greeting) && FirstWanted(answers, answer)
                && (exists middle :: && Reads(json, old(incoming), greeting, middle)
                                     && Reads(json, middle, answer, incoming))
                && Wrote(json, old(sent), [Frame(HANDSHAKE, hello)] + Pongs(greeting)
                                          + [Frame(FRAME, request)] + Pongs(answer), sent)
      ensures !ok ==>
                && WrotePart(json, old(sent), full, part, sent)
                && Reached(hello, request, ready, greeting, answer, full, part)
    {
      hide Encode, Encodable, Decode, Wrote, WrotePart, FirstWanted, Reads, RefusedAfter, Skipped;
      greeting, answer, full := [], [], [];
      ghost var before, first, second := sent, Frame(HANDSHAKE, hello), Frame(FRAME, request);
      WroteNothing(json, before);
      part := Some(first);
      ok := WriteFrame(Frame(HANDSHAKE, hello));
      if !ok {
        WroteSomePart(json, before, full, before, first, sent);
        return;
      }
      full := [first];
      WroteOne(json, before, first, sent);
      ghost var middle := sent;
      ok, greeting, part := AwaitReply(ready);
      if !ok {
        WrotePartAfter(json, before, full, middle, Pongs(greeting), part, sent);
        full := full + Pongs(greeting);
        return;
      }
      WroteMore(json, before, full, middle, Pongs(greeting), sent);
      full := full + Pongs(greeting);
      middle, part := sent, Some(second);
      ghost var read := incoming;
      ok := WriteFrame(Frame(FRAME, request));
      if !ok {
        WroteSomePart(json, before, full, middle, second, sent);
        return;
      }
      WroteOne(json, middle, second, sent);
      WroteMore(json, before, full, middle, [second], sent);
      full, middle := full + [second], sent;
      ok, answer, part := AwaitReply(answers);
      if !ok {
        WrotePartAfter(json, before, full, middle, Pongs(answer), part, sent);
        full := full + Pongs(answer);
        return;
      }
      WroteMore(json, before, full, middle, Pongs(answer), sent);
      assert Reads(json, old(incoming), greeting, read) && Reads(json, read, answer, incoming);
    }

    /** Why reading on failed with `rest` unread, after `before` had been sent in full. */
    ghost predicate RefusedAfter(wanted: V -> bool, rest: Bytes, before: Bytes)
      reads this
    {
      match Decode(json, rest)
      case Failure(_) => sent == before
      case Success((next, _)) =>
        if next.opcode == PING then PongFailed(next.body, before)
        else sent == before && (next.opcode != FRAME || json.isError(next.body))
    }

    /** Why the connection closed with `rest` unread, after `before` had been sent in full. */
    ghost predicate ClosedAfter(rest: Bytes, before: Bytes)
      reads this
    {
      match Decode(json, rest)
      case Failure(_) => sent == before
      case Success((next, _)) =>
        if next.opcode == PING then PongFailed(next.body, before)
        else sent == before && next.opcode != FRAME
    }

    /** At most a part of the pong went out. */
    ghost predicate PongFailed(body: V, before: Bytes)
      reads this
    {
      var pong := Frame(PONG, body);
      && (Encodable(json, pong) ==>
            exists n :: 0 <= n <= |Encode(json, pong)| && sent == before + Encode(json, pong)[..n])
      && (!Encodable(json, pong) ==> sent == before)
    }

    /** A message never closes a held connection, and only an error refuses what is waited for. */
    lemma MessagesKeepIt(wanted: V -> bool, rest: Bytes, before: Bytes, f: Frame<V>, after: Bytes)
      requires Decode(json, rest) == Success((f, after)) && f.opcode == 1
      ensures !ClosedAfter(rest, before)
      ensures RefusedAfter(wanted, rest, before) ==> json.isError(f.body) && sent == before
    {
    }
  }
}
