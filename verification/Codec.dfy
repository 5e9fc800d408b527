/** One codec in front of the three protocol bodies. */
module Codec {
  import opened Wrappers
  import opened Aead
  import VmessSpec
  import VmessProofs
  import VmessBody
  import ShadowsocksSpec
  import ShadowsocksProofs
  import ShadowsocksBody

  datatype DecoderHalf = Plain | Vmess(v: VmessBody.VmessDecoder) | Shadowsocks(s: ShadowsocksBody.SsDecoder)

  /** The state of a decoder as a value. */
  datatype State =
    | PlainState
    | VmessState(key: VmessSpec.Key, vmess: VmessSpec.DecState)
    | SsState(cipher: Cipher, ss: ShadowsocksSpec.DecState, owed: Option<Bytes>)
  {
    ghost predicate Valid() {
      match this
      case PlainState => true
      case VmessState(key, _) => |key.iv| == 16
      case SsState(cipher, _, _) => cipher.LengthsMatch()
    }

    /** The stream has ended: only VMess has an end marker. */
    predicate Finished() {
      VmessState? && vmess.finished
    }
  }

  function Owed(initial: Option<Bytes>): seq<Bytes> {
    if initial.Some? then [initial.value] else []
  }

  /** One call of the decoder. */
  function Step(s: State, input: Bytes): (o: Outcome<State>)
    requires s.Valid()
  {
    match s
    case PlainState => Outcome(s, if input == [] then [] else [input], None)
    case VmessState(key, dec) =>
      var o := VmessSpec.Decode(key, dec, input);
      Outcome(VmessState(key, o.state), o.chunks, o.error)
    case SsState(cipher, dec, owed) =>
      var o := ShadowsocksSpec.Decode(cipher, dec, input);
      Outcome(SsState(cipher, o.state, None), Owed(owed) + o.chunks, o.error)
  }

  lemma StepValid(s: State, input: Bytes)
    requires s.Valid()
    ensures Step(s, input).state.Valid()
  {
    hide VmessSpec.Decode, ShadowsocksSpec.Decode;
  }

  /** A sequence of calls, stopping at the first error. */
  function StepAll(s: State, inputs: seq<Bytes>): Outcome<State>
    requires s.Valid()
    decreases |inputs|
  {
    if inputs == [] then
      Outcome(s, [], None)
    else
      StepValid(s, inputs[0]);
      var first := Step(s, inputs[0]);
      if first.error.Some? then first else Prepend(first.chunks, StepAll(first.state, inputs[1..]))
  }

  class Decoder {
    const half: DecoderHalf

    ghost function Repr(): set<object> {
      match half
      case Plain => {}
      case Vmess(v) => {v, v.dir}
      case Shadowsocks(s) => {s}
    }

    ghost predicate Valid() {
      match half
      case Plain => true
      case Vmess(v) => v.Valid()
      case Shadowsocks(s) => s.Valid()
    }

    ghost function Value(): State
      reads Repr()
    {
      match half
      case Plain => PlainState
      case Vmess(v) => VmessState(v.dir.key, v.State())
      case Shadowsocks(s) => SsState(s.cipher, s.State(), s.initial)
    }

    constructor (half: DecoderHalf)
      ensures this.half == half
    {
      this.half := half;
    }

    /** Unwrap one piece of the uplink, appending whole plaintext chunks to `out`. */
    method Decode(input: Bytes, out: seq<Bytes>) returns (out': seq<Bytes>, error: Option<CodecError>)
      requires Valid()
      modifies Repr()
      ensures Valid() && old(Value()).Valid()
      ensures Outcome(Value(), out', error) == Prepend(out, Step(old(Value()), input))
    {
      hide VmessSpec.Decode, ShadowsocksSpec.Decode;
      match half {
        case Plain =>
          out' := if input != [] then out + [input] else out;
          error := None;
        case Vmess(v) =>
          out', error := v.Decode(input, out);
        case Shadowsocks(s) =>
          out', error := s.Decode(input, out);
      }
    }
  }

  /** However the uplink is cut, every protocol delivers the same bytes, fails the same way and goes on from the same
      state, unless the stream has ended; VMess and Shadowsocks deliver the same chunks. */
  lemma AnySplit(s: State, inputs: seq<Bytes>)
    requires s.Valid() && inputs != []
    ensures var a, b := StepAll(s, inputs), Step(s, Concat(inputs));
      && a.error == b.error && Concat(a.chunks) == Concat(b.chunks)
      && (!s.PlainState? ==> a.chunks == b.chunks)
      && a.state.Finished() == b.state.Finished()
      && (a.error.None? && !a.state.Finished() ==> a.state == b.state)
  {
    hide StepAll, Step, Concat;
    match s {
      case PlainState =>
        PlainSplit(inputs);
      case VmessState(key, dec) =>
        VmessCalls(key, dec, inputs);
        VmessProofs.DecodeAnySplit(key, dec, inputs);
        VmessStep(key, dec, Concat(inputs));
      case SsState(cipher, dec, owed) =>
        SsCalls(cipher, dec, owed, inputs);
        ShadowsocksProofs.DecodeAnySplit(cipher, dec, inputs);
        SsStep(cipher, dec, owed, Concat(inputs));
    }
  }

  lemma VmessStep(key: VmessSpec.Key, dec: VmessSpec.DecState, input: Bytes)
    requires |key.iv| == 16
    ensures var o, p := Step(VmessState(key, dec), input), VmessSpec.Decode(key, dec, input);
      o.chunks == p.chunks && o.error == p.error && o.state == VmessState(key, p.state)
  {
    hide VmessSpec.Decode;
  }

  lemma SsStep(cipher: Cipher, dec: ShadowsocksSpec.DecState, owed: Option<Bytes>, input: Bytes)
    requires cipher.LengthsMatch()
    ensures var o, p := Step(SsState(cipher, dec, owed), input), ShadowsocksSpec.Decode(cipher, dec, input);
      o.chunks == Owed(owed) + p.chunks && o.error == p.error && o.state == SsState(cipher, p.state, None)
  {
    hide ShadowsocksSpec.Decode;
  }

  /** Plain bodies pass every byte through. */
  lemma {:induction false} PlainSplit(inputs: seq<Bytes>)
    ensures var a, b := StepAll(PlainState, inputs), Step(PlainState, Concat(inputs));
      && a.error == b.error == None && a.state == b.state == PlainState
      && Concat(a.chunks) == Concat(b.chunks) == Concat(inputs)
    decreases |inputs|
  {
    if inputs != [] {
      PlainSplit(inputs[1..]);
      var first := Step(PlainState, inputs[0]).chunks;
      ConcatAppend(first, StepAll(PlainState, inputs[1..]).chunks);
      OneChunk(inputs[0]);
    }
    OneChunk(Concat(inputs));
  }

  lemma OneChunk(input: Bytes)
    ensures Concat(if input == [] then [] else [input]) == input
  {
    assert [input][1..] == [];
  }

  lemma {:induction false} VmessCalls(key: VmessSpec.Key, dec: VmessSpec.DecState, inputs: seq<Bytes>)
    requires |key.iv| == 16
    ensures var o, p := StepAll(VmessState(key, dec), inputs), VmessSpec.DecodeAll(key, dec, inputs);
      o.chunks == p.chunks && o.error == p.error && o.state == VmessState(key, p.state)
    decreases |inputs|
  {
    hide VmessSpec.Decode;
    if inputs != [] {
      VmessCalls(key, VmessSpec.Decode(key, dec, inputs[0]).state, inputs[1..]);
    }
  }

  lemma {:induction false} SsCalls(cipher: Cipher, dec: ShadowsocksSpec.DecState, owed: Option<Bytes>,
                                   inputs: seq<Bytes>)
    requires cipher.LengthsMatch()
    ensures var o, p := StepAll(SsState(cipher, dec, owed), inputs), ShadowsocksSpec.DecodeAll(cipher, dec, inputs);
      && o.chunks == (if inputs == [] then [] else Owed(owed)) + p.chunks && o.error == p.error
      && o.state == SsState(cipher, p.state, if inputs == [] then owed else None)
    decreases |inputs|
  {
    hide ShadowsocksSpec.Decode;
    if inputs != [] {
      SsCalls(cipher, ShadowsocksSpec.Decode(cipher, dec, inputs[0]).state, None, inputs[1..]);
    }
  }

  datatype EncoderHalf = PlainOut | VmessOut(v: VmessBody.VmessEncoder) | SsOut(s: ShadowsocksBody.SsEncoder)

  /** The state of an encoder as a value; `prologue` is what the client is owed before any payload. */
  datatype Writer =
    | PlainWriter(prologue: Bytes)
    | VmessWriter(key: VmessSpec.Key, vmess: VmessSpec.EncState, prologue: Bytes)
    | SsWriter(cipher: Cipher, opening: ShadowsocksSpec.Opening, ss: ShadowsocksSpec.EncState)
  {
    ghost predicate Valid() {
      match this
      case PlainWriter(_) => true
      case VmessWriter(key, _, _) => key.Valid()
      case SsWriter(_, _, ss) => ss.sentHeader || ss.counter == 0
    }

    function Due(): Bytes {
      if SsWriter? then [] else prologue
    }

    /** Once what was due has been taken. */
    function Paid(): (w: Writer)
      ensures Valid() ==> w.Valid()
    {
      if SsWriter? then this else this.(prologue := [])
    }
  }

  /** One call of the encoder. */
  function Wrap(w: Writer, input: Bytes): (r: (Writer, Bytes))
    requires w.Valid()
    ensures r.0.Valid() && r.0.Due() == w.Due()
  {
    match w
    case PlainWriter(_) => (w, input)
    case VmessWriter(key, e, _) =>
      var pieces := Pieces(input, VmessSpec.MAX_PLAINTEXT);
      (w.(vmess := VmessSpec.EncAfter(key, e, |pieces|)), VmessSpec.EncodePieces(key, e, pieces))
    case SsWriter(cipher, opening, e) =>
      var (e', wire) := ShadowsocksSpec.Encode(cipher, opening, e, input);
      (w.(ss := e'), wire)
  }

  /** A sequence of calls. */
  function WrapAll(w: Writer, inputs: seq<Bytes>): (wires: seq<Bytes>)
    requires w.Valid()
    ensures |wires| == |inputs|
    decreases |inputs|
  {
    if inputs == [] then []
    else
      var (w', wire) := Wrap(w, inputs[0]);
      [wire] + WrapAll(w', inputs[1..])
  }

  class Encoder {
    const half: EncoderHalf
    /** The fixed reply header of a plain protocol, until it has been taken. */
    var plainPrologue: Bytes

    ghost function Repr(): set<object> {
      {this} + match half
               case PlainOut => {}
               case VmessOut(v) => {v, v.dir}
               case SsOut(s) => {s}
    }

    ghost predicate Valid()
      reads Repr()
    {
      match half
      case PlainOut => true
      case VmessOut(v) => v.Valid()
      case SsOut(s) => s.Valid() && (s.sentHeader || s.counter == 0)
    }

    ghost function Value(): (w: Writer)
      reads Repr()
      ensures Valid() ==> w.Valid()
    {
      match half
      case PlainOut => PlainWriter(plainPrologue)
      case VmessOut(v) => VmessWriter(v.dir.key, v.State(), if v.prologue.Some? then v.prologue.value else [])
      case SsOut(s) => SsWriter(s.cipher, s.opening, s.State())
    }

    constructor (half: EncoderHalf, prologue: Bytes)
      ensures this.half == half && plainPrologue == prologue
    {
      this.half, plainPrologue := half, prologue;
    }

    /** Hand over what the client is owed before any payload; nothing is due afterwards. */
    method Prologue() returns (owed: Bytes)
      requires Valid()
      modifies Repr()
      ensures Valid() && owed == old(Value()).Due() && Value() == old(Value()).Paid()
    {
      match half {
        case PlainOut =>
          owed := plainPrologue;
          plainPrologue := [];
        case VmessOut(v) =>
          owed := v.TakePrologue();
        case SsOut(_) =>
          owed := [];
      }
    }

    /** Wrap one piece of the downlink. */
    method Encode(input: Bytes) returns (wire: Bytes)
      requires Valid()
      modifies Repr()
      ensures Valid() && (Value(), wire) == Wrap(old(Value()), input)
    {
      hide VmessSpec.EncodePieces, VmessSpec.EncAfter, ShadowsocksSpec.Encode;
      match half {
        case PlainOut =>
          wire := input;
        case VmessOut(v) =>
          wire := v.Encode(input);
        case SsOut(s) =>
          wire := s.Encode(input);
      }
    }
  }
}
