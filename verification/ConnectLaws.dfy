/** What each result of a Receive says about the body, and bodies that end too early. */
module ConnectLaws {
  import opened Wrappers
  import opened Unicode
  import opened ConnectStream

  lemma LimitIsTwoMebibytes()
    ensures MAX_MESSAGE_BYTES == 0x20_0000
  {
  }

  /** Lengths are big-endian: the first byte counts most. */
  lemma BigEndianHorner(b: seq<Byte>)
    requires |b| == 4
    ensures var p: int, q: int, r: int, t: int := b[0], b[1], b[2], b[3];
            Uint32(b) == ((p * 0x100 + q) * 0x100 + r) * 0x100 + t
  {
  }

  // ---------- one call ----------

  /** A message is returned exactly for a data envelope of it. */
  lemma MessageIff<Q, M>(codec: Codec<Q, M>, b: seq<Byte>, m: M, rest: seq<Byte>)
    ensures ReceiveStep(codec, b) == Step(Message(m), rest, None) <==>
            exists payload: seq<Byte> :: |payload| <= MAX_MESSAGE_BYTES && b == Envelope(Frame(0, payload)) + rest
                                      && codec.message(payload) == Some(m)
  {
    hide Envelope, ReadEnvelope;
    if ReceiveStep(codec, b) == Step(Message(m), rest, None) {
      ReadExact(b);
      assert ReadEnvelope(b).frame == Frame(0, ReadEnvelope(b).frame.payload);
    }
    if payload: seq<Byte> :| |payload| <= MAX_MESSAGE_BYTES && b == Envelope(Frame(0, payload)) + rest
                             && codec.message(payload) == Some(m) {
      ReadsEnvelope(Frame(0, payload), rest);
    }
  }

  /** The end is reported exactly for an end envelope without error and with nothing behind it. */
  lemma AtEofIff<Q, M>(codec: Codec<Q, M>, b: seq<Byte>)
    ensures ReceiveStep(codec, b).result == AtEof <==>
            exists end: seq<Byte> :: |end| <= MAX_MESSAGE_BYTES && b == Envelope(Frame(2, end))
                                  && codec.endStream(end).Some? && codec.endStream(end).value.error.None?
  {
    hide Envelope, ReadEnvelope;
    if ReceiveStep(codec, b).result == AtEof {
      ReadExact(b);
      var end := ReadEnvelope(b).frame.payload;
      assert ReadEnvelope(b).frame == Frame(2, end) && ReadEnvelope(b).rest == [];
      assert Envelope(Frame(2, end)) + [] == Envelope(Frame(2, end));
    }
    if end: seq<Byte> :| |end| <= MAX_MESSAGE_BYTES && b == Envelope(Frame(2, end))
                         && codec.endStream(end).Some? && codec.endStream(end).value.error.None? {
      ReadsEnvelope(Frame(2, end), []);
      assert Envelope(Frame(2, end)) + [] == b;
    }
  }

  /** What the flags and the payload of a whole envelope lead to. */
  lemma FlagsDecide<Q, M>(codec: Codec<Q, M>, f: Frame, rest: seq<Byte>)
    requires Sized(f)
    ensures var result := ReceiveStep(codec, Envelope(f) + rest).result;
            && (f.flags % 2 == 1 <==> result == Failed(Compressed))
            && (f.flags % 2 == 0 && f.flags != 0 && f.flags != 2 <==> result == Failed(BadFlags))
            && (f.flags == 2 && codec.endStream(f.payload) == None <==> result == Failed(BadEnd))
            && (f.flags == 2 && codec.endStream(f.payload) != None && rest != [] <==> result == Failed(TrailingByte))
            && (f.flags == 0 && codec.message(f.payload) == None <==> result == Failed(BadMessage))
  {
    hide Envelope, ReadEnvelope;
    ReadsEnvelope(f, rest);
  }

  /** A declared length beyond the limit is refused before the payload is read. */
  lemma TooLongRefused<Q, M>(codec: Codec<Q, M>, flags: Byte, length: nat, rest: seq<Byte>)
    requires MAX_MESSAGE_BYTES < length < 0x1_0000_0000
    ensures ReceiveStep(codec, [flags] + BigEndian32(length) + rest) == Step(Failed(TooLong), rest, None)
  {
    hide BigEndian32, Uint32;
    var b := [flags] + BigEndian32(length) + rest;
    Uint32Inverts(length);
    assert b[..5][1..5] == BigEndian32(length) && b[5..] == rest;
  }

  lemma CutPrefix(f: Frame, cut: nat)
    requires Sized(f) && 5 <= cut <= |Envelope(f)|
    ensures |Envelope(f)| == 5 + |f.payload| && Envelope(f)[..cut][..5][1..5] == BigEndian32(|f.payload|)
  {
    hide BigEndian32;
    var e := Envelope(f);
    assert e[..5] == [f.flags] + BigEndian32(|f.payload|);
    assert e[..cut][..5] == e[..5] && e[..5][1..5] == BigEndian32(|f.payload|);
  }

  /** Anything that is cut short, before or inside an envelope, is an unexpected end. */
  lemma CutShort<Q, M>(codec: Codec<Q, M>, f: Frame, cut: nat)
    requires Sized(f) && cut < |Envelope(f)|
    ensures ReceiveStep(codec, Envelope(f)[..cut]) == Step(Failed(UnexpectedEof), [], None)
  {
    hide BigEndian32, Uint32;
    if cut >= 5 {
      Uint32Inverts(|f.payload|);
      CutPrefix(f, cut);
    }
  }

  /** The end of file that a read reports is never passed on as such. */
  lemma NeverEof<Q, M>(codec: Codec<Q, M>, side: Side)
    ensures ResultOf(codec, side) != Failed(Eof)
  {
  }

  // ---------- many calls ----------

  predicate Readable<Q, M>(codec: Codec<Q, M>, payloads: seq<seq<Byte>>) {
    forall p | p in payloads :: |p| <= MAX_MESSAGE_BYTES && codec.message(p).Some?
  }

  /**
   A truncated stream, n data envelopes and then nothing or a part of another envelope: the calls return the n
   messages in order and then the unexpected end.
   */
  lemma TruncatedStream<Q, M>(codec: Codec<Q, M>, payloads: seq<seq<Byte>>, f: Frame, cut: nat, k: nat)
    requires Readable(codec, payloads) && Sized(f) && cut < |Envelope(f)| && k <= |payloads|
    ensures forall frame | frame in DataFrames(payloads) :: Sized(frame)
    ensures NthResult(codec, Side(false, EncodeAll(DataFrames(payloads)) + Envelope(f)[..cut]), k)
         == if k < |payloads| then Message(codec.message(payloads[k]).value) else Failed(UnexpectedEof)
  {
    hide ReceiveStep, Envelope, EncodeAll;
    MessagesInOrder(codec, payloads, Envelope(f)[..cut], k);
    CutShort(codec, f, cut);
  }

  /** With nothing behind the data envelopes, in particular. */
  lemma MissingEnd<Q, M>(codec: Codec<Q, M>, payloads: seq<seq<Byte>>)
    requires Readable(codec, payloads)
    ensures forall frame | frame in DataFrames(payloads) :: Sized(frame)
    ensures NthResult(codec, Side(false, EncodeAll(DataFrames(payloads))), |payloads|) == Failed(UnexpectedEof)
  {
    hide EncodeAll;
    var f := Frame(0, []);
    TruncatedStream(codec, payloads, f, 0, |payloads|);
    assert Envelope(f)[..0] == [];
    assert EncodeAll(DataFrames(payloads)) + [] == EncodeAll(DataFrames(payloads));
  }

  /** The unread body of one of the first calls was an end envelope and nothing else. */
  ghost predicate EndWasRead<Q, M>(codec: Codec<Q, M>, side: Side, k: nat) {
    exists j: nat, end: seq<Byte> ::
      && j <= k && |end| <= MAX_MESSAGE_BYTES && codec.endStream(end).Some?
      && AfterCalls(codec, side, j) == Side(false, Envelope(Frame(2, end)))
  }

  lemma EndedNeedsEnd<Q, M>(codec: Codec<Q, M>, b: seq<Byte>)
    requires ReceiveStep(codec, b).end.Some?
    ensures exists end: seq<Byte> ::
              |end| <= MAX_MESSAGE_BYTES && b == Envelope(Frame(2, end)) && codec.endStream(end).Some?
  {
    hide Envelope, ReadEnvelope;
    ReadExact(b);
    var end := ReadEnvelope(b).frame.payload;
    assert ReadEnvelope(b).frame == Frame(2, end) && ReadEnvelope(b).rest == [];
    assert Envelope(Frame(2, end)) + [] == Envelope(Frame(2, end));
  }

  lemma {:induction false} EndedReadEnd<Q, M>(codec: Codec<Q, M>, b: seq<Byte>, k: nat)
    requires AfterCalls(codec, Side(false, b), k).ended
    ensures k > 0 && EndWasRead(codec, Side(false, b), k - 1)
  {
    hide ReceiveStep, Envelope;
    var side := Side(false, b);
    NoCall(codec, side);
    if k > 0 {
      OneMoreCall(codec, side, k - 1);
      var before := AfterCalls(codec, side, k - 1);
      if before.ended {
        EndedReadEnd(codec, b, k - 1);
      } else {
        EndedNeedsEnd(codec, before.rest);
        var end: seq<Byte> :| |end| <= MAX_MESSAGE_BYTES && before.rest == Envelope(Frame(2, end))
                              && codec.endStream(end).Some?;
        assert AfterCalls(codec, side, k - 1) == Side(false, Envelope(Frame(2, end)));
      }
    }
  }

  /** No call reports the end, in whatever form, unless an end envelope was read by it or before it. */
  lemma EofNeedsEnd<Q, M>(codec: Codec<Q, M>, b: seq<Byte>, k: nat)
    ensures NthResult(codec, Side(false, b), k) != Failed(Eof)
    ensures NthResult(codec, Side(false, b), k) == AtEof ==> EndWasRead(codec, Side(false, b), k)
  {
    hide ReceiveStep, Envelope, AfterCalls;
    var side := AfterCalls(codec, Side(false, b), k);
    NeverEof(codec, side);
    if NthResult(codec, Side(false, b), k) == AtEof {
      if side.ended {
        EndedReadEnd(codec, b, k);
      } else {
        AtEofIff(codec, side.rest);
        var end: seq<Byte> :| |end| <= MAX_MESSAGE_BYTES && side.rest == Envelope(Frame(2, end))
                              && codec.endStream(end).Some? && codec.endStream(end).value.error.None?;
        assert side == Side(false, Envelope(Frame(2, end)));
      }
    }
  }

  // ---------- around the body ----------

  /** Only a response of status 200 and of the stream type is read. */
  lemma ReadResponses(t: Transport)
    ensures TransportFault(t) == None <==> exists trailer :: t == Response(200, true, trailer)
    ensures forall status, streamType, trailer | t == Response(status, streamType, trailer) && status != 200 ::
              TransportFault(t) == Some(BadStatus(status))
  {
    if t.Response? && t.status == 200 && t.streamType { assert t == Response(200, true, t.trailer); }
  }

  /** Under each name the first values come before the second ones, and no name is lost or added. */
  lemma MergeKeeps(first: Metadata, second: Metadata, name: string)
    ensures name in Merge(first, second) <==> name in first || name in second
    ensures name in first && name !in second ==> Merge(first, second)[name] == first[name]
    ensures name !in first && name in second ==> Merge(first, second)[name] == second[name]
    ensures name in first && name in second ==> Merge(first, second)[name] == first[name] + second[name]
  {
  }

  /** A read that gets no byte at all reports the end of file, one that gets some an unexpected end. */
  lemma CutEnvelope(f: Frame, cut: nat)
    requires Sized(f) && cut < |Envelope(f)|
    ensures ReadEnvelope(Envelope(f)[..cut]) == Lost(if cut == 0 || cut == 5 then Eof else UnexpectedEof, [])
  {
    hide BigEndian32, Uint32;
    if cut >= 5 {
      Uint32Inverts(|f.payload|);
      CutPrefix(f, cut);
    }
  }
}
