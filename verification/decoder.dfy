/** The AD7616 protocol decoder: it reads the device-to-host (MISO) bits of
    an SPI stream that has already been cut into packets, collects them in
    one integer per chip-select frame, and on the rising chip-select edge
    that ends the frame turns the collected code into a voltage annotation. */
module Ad7616 {
  import opened BitFold

  datatype Option<T> = None | Some(value: T)

  /** The packets the decoder receives from the SPI layer. Only the MISO bit
      list of a bit packet is read; every other packet kind is ignored. */
  datatype Packet =
    | Bits(miso: seq<Bit>)
    | CsChange(csOld: Option<Bit>, csNew: Bit)
    | Other

  /** One packet with the sample numbers it spans. */
  datatype Event = Event(ss: int, es: int, p: Packet)

  /** An emitted annotation: its span, its annotation class (0, the only
      class, "voltage") and the exact voltage it reports. The span start is
      whatever the decoder held, which is unset for a frame without bits. */
  datatype Annotation = Annotation(ss: Option<int>, es: int, cls: nat, volts: real)

  /** How handling a packet ended: normally, or by reading the frame end
      before any bit packet ever set it (an attribute error in the decoder). */
  datatype Status = Done | EndUnset

  /** The decoder's fields and the annotations it has put so far. */
  datatype State = State(data: nat, ss: Option<int>, es: Option<int>, out: seq<Annotation>)

  /** The state right after construction: `reset` has cleared the
      accumulator and the frame start; the frame end has never been set. */
  function Initial(): State
  {
    State(0, None, None, [])
  }

  /** The voltage of a code, scaled for a 5 V full scale at code 32767. The
      code is read as unsigned, so codes above 32767 give more than 5 V
      and no code gives a negative voltage. */
  function Volts(code: nat): (v: real)
    ensures 0.0 <= v
    ensures v == 0.0 <==> code == 0
    ensures code == 32767 ==> v == 5.0
    ensures code < 32767 ==> v < 5.0
    ensures code > 32767 ==> v > 5.0
  {
    (code * 5) as real / 32767.0
  }

  /** The chip-select change that ends a frame: from a known low to high. */
  predicate Fires(csOld: Option<Bit>, csNew: Bit)
  {
    csOld.Some? && csOld.value == 0 && csNew == 1
  }

  /** What handling one packet does to the decoder. */
  function Next(s: State, ss: int, es: int, p: Packet): (State, Status)
  {
    match p
    case Bits(miso) =>
      (s.(data := Acc(s.data, Reverse(miso)),
          ss := if s.ss == None then Some(ss) else s.ss,
          es := Some(es)), Done)
    case CsChange(csOld, csNew) =>
      if !Fires(csOld, csNew) then (s, Done)
      else if s.es == None then (s.(data := s.data / 2), EndUnset)
      else
        var a := Annotation(s.ss, s.es.value, 0, Volts(s.data / 2));
        (s.(data := 0, ss := None, out := s.out + [a]), Done)
    case Other => (s, Done)
  }

  /** Handling a sequence of events in order: the final state and how many
      packets failed. A failing packet leaves the state its own step gives,
      and handling goes on with the next packet. */
  function Run(s: State, evs: seq<Event>): (State, nat)
    decreases |evs|
  {
    if evs == [] then (s, 0)
    else
      var r := Next(s, evs[0].ss, evs[0].es, evs[0].p);
      var rest := Run(r.0, evs[1..]);
      (rest.0, if r.1 == EndUnset then rest.1 + 1 else rest.1)
  }

  /** The bits a sequence of events feeds to the accumulator, in the order
      it consumes them. */
  function FedBits(evs: seq<Event>): seq<Bit>
  {
    if evs == [] then []
    else (if evs[0].p.Bits? then Reverse(evs[0].p.miso) else []) + FedBits(evs[1..])
  }

  /** No event of the sequence is a chip-select change that ends a frame. */
  predicate NoFire(evs: seq<Event>)
  {
    forall i :: 0 <= i < |evs| ==> !(evs[i].p.CsChange? && Fires(evs[i].p.csOld, evs[i].p.csNew))
  }

  /** The start sample of the first bit packet of the sequence, if any. */
  function FirstBitsStart(evs: seq<Event>): Option<int>
  {
    if evs == [] then None
    else if evs[0].p.Bits? then Some(evs[0].ss)
    else FirstBitsStart(evs[1..])
  }

  /** The end sample of the last bit packet of the sequence, if any. */
  function LastBitsEnd(evs: seq<Event>): Option<int>
  {
    if evs == [] then None
    else
      var later := LastBitsEnd(evs[1..]);
      if later.Some? then later
      else if evs[0].p.Bits? then Some(evs[0].es)
      else None
  }

  /** The decoder object. Its four fields are the model's `State`. */
  class Decoder {
    var data: nat
    var ss: Option<int>
    var es: Option<int>
    var out: seq<Annotation>

    function Snapshot(): State
      reads this
    {
      State(data, ss, es, out)
    }

    constructor ()
      ensures Snapshot() == Initial()
    {
      es := None;
      out := [];
      new;
      Reset();
    }

    method Reset()
      modifies this`data, this`ss
      ensures data == 0 && ss == None
      ensures es == old(es) && out == old(out)
    {
      data := 0;
      ss := None;
    }

    method Decode(ss: int, es: int, p: Packet) returns (st: Status)
      modifies this
      ensures (Snapshot(), st) == Next(old(Snapshot()), ss, es, p)
    {
      st := Done;
      match p {
        case CsChange(csOld, csNew) =>
          if csOld.Some? && csOld.value == 0 && csNew == 1 {
            data := data / 2;
            var volts := Volts(data);
            if this.es == None {
              st := EndUnset;
              return;
            }
            out := out + [Annotation(this.ss, this.es.value, 0, volts)];
            data := 0;
            this.ss := None;
          }
        case Bits(miso) =>
          this.es := Some(es);
          if this.ss == None {
            this.ss := Some(ss);
          }
          var i := |miso|;
          while i > 0
            invariant 0 <= i <= |miso|
            invariant data == Acc(old(data), Reverse(miso[i..]))
            invariant this.ss == (if old(this.ss) == None then Some(ss) else old(this.ss))
            invariant this.es == Some(es) && out == old(out)
          {
            i := i - 1;
            ReverseSuffix(miso, i + 1);
            AccSnoc(old(data), Reverse(miso[i + 1..]), miso[i]);
            data := BitOr(data, miso[i]);
            data := data * 2;
          }
          assert miso[0..] == miso;
        case Other =>
      }
    }
  }

  // ---- One packet ----

  /** Decoding fires exactly on a chip-select change from a known low to
      high: every other change, including one from an unknown level,
      leaves the whole state and the output as they were. */
  lemma OnlyRisingEdgeFires(s: State, ss: int, es: int, csOld: Option<Bit>, csNew: Bit)
    ensures Next(s, ss, es, CsChange(csOld, csNew)) == (s, Done)
        <==> !(csOld == Some(0) && csNew == 1)
  {
    if csOld == Some(0) && csNew == 1 && s.es.Some? {
      assert |Next(s, ss, es, CsChange(csOld, csNew)).0.out| == |s.out| + 1;
    }
  }

  /** A firing edge with the frame end known puts exactly one voltage
      annotation spanning the frame, holding the halved code, and clears the
      accumulator and the frame start. */
  lemma FireEmitsOne(s: State, ss: int, es: int)
    requires s.es.Some?
    ensures var (t, st) := Next(s, ss, es, CsChange(Some(0), 1));
      && st == Done
      && |t.out| == |s.out| + 1
      && t.out[..|s.out|] == s.out
      && t.out[|s.out|].cls == 0
      && t.out[|s.out|].ss == s.ss && t.out[|s.out|].es == s.es.value
      && t.out[|s.out|].volts * 32767.0 == (s.data / 2) as real * 5.0
      && t.data == 0 && t.ss == None && t.es == s.es
  {
    var t := Next(s, ss, es, CsChange(Some(0), 1)).0;
    assert t.out == s.out + [t.out[|s.out|]];
  }

  /** The state every reachable decoder is in: the accumulator is even, and
      while no bit packet has ever set the frame end, the accumulator and the
      frame start are still clear. */
  predicate WellFormed(s: State)
  {
    s.data % 2 == 0 && (s.es == None ==> s.data == 0 && s.ss == None)
  }

  /** Every packet keeps the decoder well formed, so the finalising shift
      never drops a set bit; a packet that fails (a firing edge before any
      bit packet) changes nothing at all and emits nothing. */
  lemma NextKeepsWellFormed(s: State, ss: int, es: int, p: Packet)
    requires WellFormed(s)
    ensures WellFormed(Next(s, ss, es, p).0)
    ensures Next(s, ss, es, p).1 == EndUnset ==> Next(s, ss, es, p).0 == s
  {
    if p.Bits? {
      AccEven(s.data, Reverse(p.miso));
    }
  }

  lemma {:induction false} RunKeepsWellFormed(s: State, evs: seq<Event>)
    requires WellFormed(s)
    ensures WellFormed(Run(s, evs).0)
    decreases |evs|
  {
    if evs != [] {
      NextKeepsWellFormed(s, evs[0].ss, evs[0].es, evs[0].p);
      RunKeepsWellFormed(Next(s, evs[0].ss, evs[0].es, evs[0].p).0, evs[1..]);
    }
  }

  /** Whatever packets a new decoder receives, its accumulator is even, so
      `data >>= 1` at a firing edge only removes the extra trailing zero. */
  lemma RunFromInitialEven(evs: seq<Event>)
    ensures Run(Initial(), evs).0.data % 2 == 0
    ensures Run(Initial(), evs).0.data / 2 * 2 == Run(Initial(), evs).0.data
  {
    RunKeepsWellFormed(Initial(), evs);
  }

  /** A firing edge on a new decoder reads the frame end that no bit packet
      has set: handling fails, nothing is emitted and the decoder is still
      as new, so the frames that follow decode as on a fresh decoder. */
  lemma EdgeBeforeAnyBits(ss: int, es: int)
    ensures Next(Initial(), ss, es, CsChange(Some(0), 1)) == (Initial(), EndUnset)
  {
  }

  /** Two bit packets leave the accumulator as one pass over the first
      packet's bits reversed followed by the second's: the earlier packet
      supplies the higher-order bits. */
  lemma TwoPacketsCompose(s: State, ss1: int, es1: int, b1: seq<Bit>, ss2: int, es2: int, b2: seq<Bit>)
    ensures var t := Next(Next(s, ss1, es1, Bits(b1)).0, ss2, es2, Bits(b2)).0;
      && t.data == Acc(s.data, Reverse(b1) + Reverse(b2))
      && t.data == Acc(s.data, Reverse(b2 + b1))
      && t.ss == (if s.ss == None then Some(ss1) else s.ss)
      && t.es == Some(es2)
  {
    AccAppend(s.data, Reverse(b1), Reverse(b2));
    ReverseAppend(b2, b1);
  }

  /** After a frame is finalised the next bit packet opens a fresh frame: its
      own start stamp becomes the frame start and the accumulator holds
      exactly that packet's bits, none of the previous frame's. */
  lemma FreshFrameAfterFire(s: State, ss: int, es: int, ss2: int, es2: int, miso: seq<Bit>)
    requires s.es.Some?
    ensures var t := Next(Next(s, ss, es, CsChange(Some(0), 1)).0, ss2, es2, Bits(miso)).0;
      && t.ss == Some(ss2) && t.es == Some(es2)
      && t.data == 2 * Val(Reverse(miso))
  {
    AccFromZero(Reverse(miso));
  }

  // ---- Sequences of packets ----

  /** Handling two sequences in turn is handling their concatenation; the
      failures add up. */
  lemma {:induction false} RunAppend(s: State, a: seq<Event>, b: seq<Event>)
    ensures var r := Run(s, a);
      Run(s, a + b) == (Run(r.0, b).0, r.1 + Run(r.0, b).1)
    decreases |a|
  {
    if a == [] {
      assert a + b == b;
    } else {
      assert (a + b)[0] == a[0];
      assert (a + b)[1..] == a[1..] + b;
      RunAppend(Next(s, a[0].ss, a[0].es, a[0].p).0, a[1..], b);
    }
  }

  lemma {:induction false} BitsSeen(evs: seq<Event>)
    ensures FirstBitsStart(evs).Some? <==> LastBitsEnd(evs).Some?
  {
    if evs != [] {
      BitsSeen(evs[1..]);
    }
  }

  /** Within a frame, that is across any packets but a firing edge (bit
      packets, other chip-select changes, other packet kinds): the
      accumulator folds every received bit in arrival order; the frame
      start is the one already held, or else the first bit packet's, and is
      never overwritten; the frame end is the last bit packet's; nothing is
      emitted and nothing fails. */
  lemma {:induction false} NoFireRun(s: State, evs: seq<Event>)
    requires NoFire(evs)
    ensures Run(s, evs) ==
      (State(Acc(s.data, FedBits(evs)),
             if s.ss.Some? then s.ss else FirstBitsStart(evs),
             if LastBitsEnd(evs).Some? then LastBitsEnd(evs) else s.es,
             s.out), 0)
    decreases |evs|
  {
    if evs != [] {
      var t := Next(s, evs[0].ss, evs[0].es, evs[0].p).0;
      var rest := evs[1..];
      assert NoFire(rest) by {
        forall i | 0 <= i < |rest|
          ensures !(rest[i].p.CsChange? && Fires(rest[i].p.csOld, rest[i].p.csNew))
        {
          assert rest[i] == evs[i + 1];
        }
      }
      assert !(evs[0].p.CsChange? && Fires(evs[0].p.csOld, evs[0].p.csNew));
      NoFireRun(t, rest);
      var head := if evs[0].p.Bits? then Reverse(evs[0].p.miso) else [];
      assert FedBits(evs) == head + FedBits(rest);
      AccAppend(s.data, head, FedBits(rest));
      if !evs[0].p.Bits? {
        assert head + FedBits(rest) == FedBits(rest);
      }
    }
  }

  /** A whole frame: starting cleared (on a new decoder or after a finalised
      frame), packets without a firing edge but with at least one bit packet,
      then the rising chip-select edge, emit exactly one annotation. It spans
      the first bit packet's start to the last bit packet's end, and its
      voltage is that of the big-endian number the received bits spell. The
      accumulator and frame start end cleared and nothing fails. */
  lemma FrameDecodes(s: State, evs: seq<Event>, edge: Event)
    requires s.data == 0 && s.ss == None
    requires NoFire(evs) && FirstBitsStart(evs).Some?
    requires edge.p == CsChange(Some(0), 1)
    ensures LastBitsEnd(evs).Some?
    ensures Run(s, evs + [edge]) ==
      (State(0, None, LastBitsEnd(evs),
             s.out + [Annotation(FirstBitsStart(evs), LastBitsEnd(evs).value, 0,
                                 Volts(Val(FedBits(evs))))]),
       0)
  {
    BitsSeen(evs);
    NoFireRun(s, evs);
    RunAppend(s, evs, [edge]);
    AccFromZero(FedBits(evs));
  }

  /** A capture that opens with chip-select low: the first rising edge
      fails, counted once, and the frame after it still decodes to its one
      annotation. */
  lemma EarlyEdgeThenFrame(edge0: Event, evs: seq<Event>, edge: Event)
    requires edge0.p == CsChange(Some(0), 1)
    requires NoFire(evs) && FirstBitsStart(evs).Some?
    requires edge.p == CsChange(Some(0), 1)
    ensures LastBitsEnd(evs).Some?
    ensures Run(Initial(), [edge0] + evs + [edge]).1 == 1
    ensures Run(Initial(), [edge0] + evs + [edge]).0.out ==
      [Annotation(FirstBitsStart(evs), LastBitsEnd(evs).value, 0, Volts(Val(FedBits(evs))))]
  {
    assert [edge0] + evs + [edge] == [edge0] + (evs + [edge]);
    RunAppend(Initial(), [edge0], evs + [edge]);
    assert Run(Initial(), [edge0]) == (Initial(), 1);
    FrameDecodes(Initial(), evs, edge);
  }

  /** Round trip: a k-bit code n sent in one packet, as the bit list whose
      reverse is n's k binary digits most significant first, comes back as
      n after the finalising shift, and its annotation reports Volts(n). */
  lemma WordRoundTrip(s: State, n: nat, k: nat, ss: int, es: int, edge: Event)
    requires n < Pow2(k)
    requires s.data == 0 && s.ss == None
    requires edge.p == CsChange(Some(0), 1)
    ensures var miso := Reverse(Encode(n, k));
      Run(s, [Event(ss, es, Bits(miso)), edge]) ==
        (State(0, None, Some(es), s.out + [Annotation(Some(ss), es, 0, Volts(n))]), 0)
  {
    var miso := Reverse(Encode(n, k));
    var e := Event(ss, es, Bits(miso));
    assert NoFire([e]);
    FrameDecodes(s, [e], edge);
    assert [e] + [edge] == [e, edge];
    assert FedBits([e]) == Encode(n, k) by {
      assert FedBits([e]) == Reverse(miso) + FedBits([]);
      ReverseReverse(Encode(n, k));
    }
    ValEncode(n, k);
  }

  /** Sixteen received bits decode to a code of at most 65535, so a 16-bit
      frame reports at most Volts(65535), about 10 V. */
  lemma SixteenBitCodeFits(bits: seq<Bit>)
    requires |bits| == 16
    ensures Val(bits) <= 65535
    ensures Volts(Val(bits)) <= Volts(65535)
  {
    assert Pow2(4) == 16;
    assert Pow2(8) == 256;
    assert Pow2(12) == 4096;
    assert Pow2(16) == 65536;
  }
}
